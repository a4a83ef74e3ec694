/**
 * The `Styles` class of src/styles.ts: a case-insensitive in-memory store
 * of styles, with a sorted key cache and dirty-tracked saving to one file.
 *
 * The identity of the `keys` array, which `save` compares by reference,
 * is modelled by the revision number `rev`: every assignment to `keys`
 * makes a new array, so it increments `rev`, and `saved` remembers the
 * revision last written. File reads and writes are parameters: the decoded
 * contents for `init`, and whether the write succeeded for `save`.
 */
module Store {
  import opened Wrappers
  import opened Text
  import opened SortedKeys
  import opened StyleRecord
  import opened StoreSpec

  /** The period `init` gives the save timer: twice a minute. */
  const SaveIntervalMs: nat := 30000

  /** A write `save` has begun: the keys token it captured and the records it serialised. */
  datatype PendingWrite = PendingWrite(token: nat, records: seq<Style>)

  class Styles {
    const dataRoot: string
    /** Where the styles are saved (path resolution is not modelled). */
    const filename: string
    /** Sorted list of style keys. */
    var keys: seq<string>
    /** Identity of the current `keys` array. */
    var rev: nat
    /** Identity of the `keys` array as of the last successful write. */
    var saved: nat
    /** The running save timer and its period, or none. */
    var saver: Option<nat>
    /** In-memory store of all styles, by key. */
    var styles: map<string, Style>

    /** The cache is the sorted key list, every style sits under its own key, and `saved` is a past token. */
    ghost predicate Valid()
      reads this
    {
      && SortedListOf(keys, styles.Keys)
      && KeyedByName(styles)
      && saved <= rev
    }

    /** The contents changed since the last successful write (as the identity test sees it). */
    predicate Dirty()
      reads this
      ensures Valid() && Dirty() ==> saved < rev
    {
      saved != rev
    }

    constructor (dataRoot: string)
      ensures Valid()
      ensures this.dataRoot == dataRoot && filename == dataRoot + "/styles.json"
      ensures styles == map[] && keys == [] && !Dirty() && saver == None
    {
      this.dataRoot := dataRoot;
      filename := dataRoot + "/styles.json";
      keys := [];
      rev := 0;
      saved := 0;
      saver := None;
      styles := map[];
    }

    /** `this.keys = Array.from(this.styles.keys()).sort()`: a new, sorted key array. */
    method RebuildKeys()
      requires KeyedByName(styles) && saved <= rev
      modifies this
      ensures Valid()
      ensures rev == old(rev) + 1
      ensures styles == old(styles) && saved == old(saved) && saver == old(saver)
    {
      keys := SortKeys(styles.Keys);
      rev := rev + 1;
    }

    /** `clear`: empties the store; an empty store is left alone, so it stays clean. */
    method Clear()
      requires Valid()
      modifies this
      ensures Valid()
      ensures styles == map[]
      ensures old(styles) == map[] ==> unchanged(this)
      ensures old(styles) != map[] ==> rev == old(rev) + 1 && saved == old(saved) && saver == old(saver)
    {
      if |styles| > 0 {
        styles := map[];
        keys := [];
        rev := rev + 1;
      }
    }

    /** `delete`: removes the style under the name's key and says whether there was one. */
    method Delete(styleName: string) returns (r: Result<bool>)
      requires Valid()
      modifies this
      ensures Valid()
      ensures r.Err? <==> styleName == ""
      ensures r.Err? ==> r.error == ArgumentRequired("styleName")
      ensures r.Ok? ==> (r.value <==> Lower(styleName) in old(styles))
      ensures r.Ok? ==> styles == old(styles) - {Lower(styleName)}
      ensures r != Ok(true) ==> unchanged(this)
      ensures r == Ok(true) ==> rev == old(rev) + 1 && saved == old(saved) && saver == old(saver)
    {
      var key :- KeyFor(styleName);
      if key in styles {
        styles := styles - {key};
        RebuildKeys();
        return Ok(true);
      }
      return Ok(false);
    }

    /** `get`: the style stored under the name's key, if any. */
    function Get(styleName: string): (r: Result<Option<Style>>)
      reads this
      requires Valid()
      ensures r.Err? <==> styleName == ""
      ensures r.Err? ==> r.error == ArgumentRequired("styleName")
      ensures r.Ok? ==> (r.value.Some? <==> Lower(styleName) in styles)
      ensures r.Ok? && r.value.Some? ==> r.value.value == styles[Lower(styleName)]
      ensures r.Ok? && r.value.Some? ==> EqualIgnoringCase(r.value.value.styleName, styleName)
    {
      var key :- KeyFor(styleName);
      if key in styles then
        LowerEqualIff(styles[key].styleName, styleName);
        Ok(Some(styles[key]))
      else Ok(None)
    }

    /** Looking a style up by any case variant of its name finds the same record. */
    lemma GetIgnoresCase(a: string, b: string)
      requires Valid() && a != "" && EqualIgnoringCase(a, b)
      ensures Get(a) == Get(b)
    {
      LowerEqualIff(a, b);
    }

    /** `list`: every stored style once, in ascending key order. */
    function List(): (r: seq<Style>)
      reads this
      requires Valid()
      ensures |r| == |styles|
      ensures forall i, j :: 0 <= i < j < |r| ==> Less(KeyOf(r[i]), KeyOf(r[j]))
      ensures forall i :: 0 <= i < |r| ==> KeyOf(r[i]) in styles && styles[KeyOf(r[i])] == r[i]
      ensures forall k :: k in styles ==> styles[k] in r
    {
      Listed(styles, keys)
    }

    /** `set`: stores the style under the key of its name and returns that key. */
    method Set(style: Option<Style>) returns (r: Result<string>)
      requires Valid()
      modifies this
      ensures Valid()
      ensures style.None? ==> r == Err(ArgumentRequired("style"))
      ensures style.Some? ==> r == KeyFor(style.value.styleName)
      ensures r.Err? ==> unchanged(this)
      ensures r.Ok? ==> styles == old(styles)[r.value := style.value]
      ensures r.Ok? ==> rev == old(rev) + 1 && saved == old(saved) && saver == old(saver)
    {
      if style.None? {
        return Err(ArgumentRequired("style"));
      }
      var key :- KeyFor(style.value.styleName);
      styles := styles[key := style.value];
      RebuildKeys();
      return Ok(key);
    }

    /**
     * `merge`: validates the whole input first, then (with `replace`)
     * empties the map and stores each record under its key.
     */
    method Merge(input: Option<seq<Option<Style>>>, replace: bool) returns (r: Outcome)
      requires Valid()
      modifies this
      ensures Valid()
      ensures r.Fail? <==> Merged(old(styles), input, replace).Err?
      ensures r.Fail? ==> r.error == Merged(old(styles), input, replace).error && unchanged(this)
      ensures r.Pass? ==> styles == Merged(old(styles), input, replace).value
      ensures r.Pass? ==> rev == old(rev) + 1 && saved == old(saved) && saver == old(saver)
    {
      if input.None? {
        return Fail(ArgumentRequired("styles"));
      }
      var xs := input.value;
      if !forall i | 0 <= i < |xs| :: ValidStyle(xs[i]) {
        return Fail(InvalidStyles);
      }
      var rs := Unwrapped(xs);
      assert MergeInput(input) == Ok(rs);
      if replace {
        styles := map[];
      }
      StoreAll(rs);
      RebuildKeys();
      return Pass;
    }

    /** The loop of `merge`: each (validated) record stored under its key, in order. */
    method StoreAll(rs: seq<Style>)
      requires KeyedByName(styles)
      requires forall i :: 0 <= i < |rs| ==> rs[i].styleName != ""
      modifies this
      ensures KeyedByName(styles)
      ensures styles == Inserted(old(styles), rs)
      ensures keys == old(keys) && saved == old(saved) && rev == old(rev) && saver == old(saver)
    {
      var i := 0;
      while i < |rs|
        invariant 0 <= i <= |rs|
        invariant styles == Inserted(old(styles), rs[..i])
        invariant keys == old(keys) && saved == old(saved) && rev == old(rev) && saver == old(saver)
      {
        var key := KeyFor(rs[i].styleName).value;
        styles := styles[key := rs[i]];
        assert rs[..i + 1][..i] == rs[..i];
        i := i + 1;
      }
      assert rs[..|rs|] == rs;
      InsertedKeyedByName(old(styles), rs);
    }

    /**
     * `rename`: checks the old name, its presence, the new name and (by
     * raw spelling) a clash, then renames the stored record, stores it
     * under the new key and removes the old key. The renamed record is
     * returned because src/styles.ts renames the caller's own object.
     */
    method Rename(oldName: string, newName: string) returns (r: Result<Style>)
      requires Valid()
      modifies this
      ensures Valid()
      ensures r.Ok? <==> Renamed(old(styles), oldName, newName).Ok?
      ensures r.Err? ==> r.error == Renamed(old(styles), oldName, newName).error && unchanged(this)
      ensures r.Ok? ==> styles == Renamed(old(styles), oldName, newName).value
      ensures r.Ok? ==> r.value == old(styles)[Lower(oldName)].(styleName := newName)
      ensures r.Ok? ==> rev == old(rev) + 1 && saved == old(saved) && saver == old(saver)
    {
      var oldKey :- KeyFor(oldName);
      if oldKey !in styles {
        return Err(NotFound(oldName));
      }
      var style := styles[oldKey];
      var newKey :- KeyFor(newName);
      if newName in styles {
        return Err(AlreadyExists(newName));
      }
      RenameKeyedByName(styles, oldName, newName);
      style := style.(styleName := newName);
      styles := styles[newKey := style];
      styles := styles - {oldKey};
      RebuildKeys();
      return Ok(style);
    }

    /**
     * The part of `save` before its `await`: when the keys token differs
     * from `saved`, capture the token and serialise the records.
     */
    method BeginSave() returns (p: Option<PendingWrite>)
      requires Valid()
      ensures p.None? <==> !Dirty()
      ensures p.Some? ==> p.value.token == rev && p.value.records == List()
    {
      if saved != rev {
        p := Some(PendingWrite(rev, List()));
      } else {
        p := None;
      }
    }

    /**
     * The part of `save` after its `await`: a successful write records the
     * token captured before it; a failed one is only logged.
     */
    method FinishSave(p: PendingWrite, writeOk: bool)
      requires Valid() && p.token <= rev
      modifies this
      ensures Valid()
      ensures saved == if writeOk then p.token else old(saved)
      ensures styles == old(styles) && keys == old(keys) && rev == old(rev) && saver == old(saver)
    {
      if writeOk {
        saved := p.token;
      }
    }

    /** `save` without anything running during its write; returns the records it tried to write. */
    method Save(writeOk: bool) returns (written: Option<seq<Style>>)
      requires Valid()
      modifies this
      ensures Valid()
      ensures written.None? <==> !old(Dirty())
      ensures written.Some? ==> written.value == old(List())
      ensures saved == if old(Dirty()) && writeOk then rev else old(saved)
      ensures styles == old(styles) && keys == old(keys) && rev == old(rev) && saver == old(saver)
    {
      var p := BeginSave();
      if p.Some? {
        FinishSave(p.value, writeOk);
        written := Some(p.value.records);
      } else {
        written := None;
      }
    }

    /** `flush`: stops the save timer, then saves. */
    method Flush(writeOk: bool) returns (written: Option<seq<Style>>)
      requires Valid()
      modifies this
      ensures Valid()
      ensures saver == None
      ensures written.None? <==> !old(Dirty())
      ensures written.Some? ==> written.value == old(List())
      ensures saved == if old(Dirty()) && writeOk then rev else old(saved)
      ensures styles == old(styles) && keys == old(keys) && rev == old(rev)
    {
      if saver.Some? {
        saver := None;
      }
      written := Save(writeOk);
    }

    /** The save timer firing: its callback is `flush`, which stops the timer. */
    method Tick(writeOk: bool) returns (written: Option<seq<Style>>)
      requires Valid()
      modifies this
      ensures Valid()
      ensures saver == None
      ensures old(saver) == None ==> written == None && unchanged(this)
      ensures old(saver) != None ==> (written.None? <==> !old(Dirty()))
      ensures old(saver) != None && written.Some? ==> written.value == old(List())
      ensures old(saver) != None ==> saved == if old(Dirty()) && writeOk then rev else old(saved)
      ensures styles == old(styles) && keys == old(keys) && rev == old(rev)
    {
      if saver.Some? {
        written := Flush(writeOk);
      } else {
        written := None;
      }
    }

    /**
     * `init`: merges (with replace) the decoded file contents, `None` when
     * reading or decoding failed, which leaves the store as it was; then
     * rebuilds the keys, marks them saved and starts the save timer.
     */
    method Init(loaded: Option<seq<Option<Style>>>)
      requires Valid()
      modifies this
      ensures Valid()
      ensures Merged(old(styles), loaded, true).Ok? ==> styles == Merged(old(styles), loaded, true).value
      ensures Merged(old(styles), loaded, true).Err? ==> styles == old(styles)
      ensures !Dirty() && rev > old(rev)
      ensures saver == Some(SaveIntervalMs)
    {
      var _ := Merge(loaded, true);
      RebuildKeys();
      saved := rev;
      saver := Some(SaveIntervalMs);
    }
  }
}
