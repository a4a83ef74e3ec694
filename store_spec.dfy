/**
 * What the store's operations do to its map from key to style, as
 * functions of the old map and the arguments; the class in styles.dfy is
 * proved against these, and the lemmas here state what they guarantee.
 */
module StoreSpec {
  import opened Wrappers
  import opened Text
  import opened SortedKeys
  import opened StyleRecord

  /** Storing records one after another, each under its own key: the loop of `merge`. */
  function Inserted(m: map<string, Style>, rs: seq<Style>): (r: map<string, Style>)
    ensures m.Keys <= r.Keys
    decreases |rs|
  {
    if rs == [] then m
    else
      var last := rs[|rs| - 1];
      Inserted(m, rs[..|rs| - 1])[KeyOf(last) := last]
  }

  /** After the loop a key is present iff it was before or some record has it. */
  lemma {:induction false} InsertedKeys(m: map<string, Style>, rs: seq<Style>)
    ensures forall k :: k in Inserted(m, rs) <==> k in m || exists i :: 0 <= i < |rs| && KeyOf(rs[i]) == k
    decreases |rs|
  {
    if rs != [] {
      var init := rs[..|rs| - 1];
      InsertedKeys(m, init);
      assert forall i :: 0 <= i < |init| ==> init[i] == rs[i];
    }
  }

  /** Of several records with one key, the last one is stored. */
  lemma {:induction false} InsertedLastWins(m: map<string, Style>, rs: seq<Style>, j: int)
    requires 0 <= j < |rs|
    requires forall i :: j < i < |rs| ==> KeyOf(rs[i]) != KeyOf(rs[j])
    ensures KeyOf(rs[j]) in Inserted(m, rs) && Inserted(m, rs)[KeyOf(rs[j])] == rs[j]
    decreases |rs|
  {
    if j < |rs| - 1 {
      var init := rs[..|rs| - 1];
      assert forall i :: j < i < |init| ==> init[i] == rs[i];
      InsertedLastWins(m, init, j);
    }
  }

  /** A key that no record has keeps its old entry, or stays absent. */
  lemma {:induction false} InsertedUntouched(m: map<string, Style>, rs: seq<Style>, k: string)
    requires forall i :: 0 <= i < |rs| ==> KeyOf(rs[i]) != k
    ensures k in Inserted(m, rs) <==> k in m
    ensures k in m ==> Inserted(m, rs)[k] == m[k]
    decreases |rs|
  {
    if rs != [] {
      InsertedUntouched(m, rs[..|rs| - 1], k);
    }
  }

  /** Each record adds at most one key. */
  lemma {:induction false} InsertedSize(m: map<string, Style>, rs: seq<Style>)
    ensures |Inserted(m, rs)| <= |m| + |rs|
    decreases |rs|
  {
    if rs != [] {
      InsertedSize(m, rs[..|rs| - 1]);
    }
  }

  /** Inserting named records keeps every entry under the key of its name. */
  lemma {:induction false} InsertedKeyedByName(m: map<string, Style>, rs: seq<Style>)
    requires KeyedByName(m)
    requires forall i :: 0 <= i < |rs| ==> rs[i].styleName != ""
    ensures KeyedByName(Inserted(m, rs))
    decreases |rs|
  {
    if rs != [] {
      InsertedKeyedByName(m, rs[..|rs| - 1]);
    }
  }

  /** A usable element of a merge: a record with a non-empty name. */
  predicate ValidStyle(s: Option<Style>) {
    s.Some? && s.value.styleName != ""
  }

  function Unwrapped(xs: seq<Option<Style>>): (rs: seq<Style>)
    requires forall i :: 0 <= i < |xs| ==> xs[i].Some?
    ensures |rs| == |xs| && forall i :: 0 <= i < |xs| ==> xs[i] == Some(rs[i])
  {
    seq(|xs|, i requires 0 <= i < |xs| => xs[i].value)
  }

  /**
   * The validation `merge` does before touching anything: a falsy array,
   * then any falsy element or falsy name, is refused.
   */
  function MergeInput(input: Option<seq<Option<Style>>>): (r: Result<seq<Style>>)
    ensures input.None? ==> r == Err(ArgumentRequired("styles"))
    ensures input.Some? ==> (r.Ok? <==> forall i :: 0 <= i < |input.value| ==> ValidStyle(input.value[i]))
    ensures input.Some? && r.Err? ==> r.error == InvalidStyles
    ensures r.Ok? ==> |r.value| == |input.value|
    ensures r.Ok? ==> forall i :: 0 <= i < |r.value| ==> input.value[i] == Some(r.value[i]) && r.value[i].styleName != ""
  {
    if input.None? then Err(ArgumentRequired("styles"))
    else if forall i | 0 <= i < |input.value| :: ValidStyle(input.value[i]) then Ok(Unwrapped(input.value))
    else Err(InvalidStyles)
  }

  /** The map after `merge(input, replace)`, or the error it throws. */
  function Merged(m: map<string, Style>, input: Option<seq<Option<Style>>>, replace: bool): (r: Result<map<string, Style>>)
    ensures r.Err? <==> MergeInput(input).Err?
    ensures r.Err? ==> r.error == MergeInput(input).error
    ensures r.Ok? && !replace ==> m.Keys <= r.value.Keys
    ensures r.Ok? && replace ==> |r.value| <= |input.value|
  {
    var rs :- MergeInput(input);
    InsertedSize(if replace then map[] else m, rs);
    Ok(Inserted(if replace then map[] else m, rs))
  }

  /**
   * `merge(input, true)`: the map holds exactly the keys of the input
   * records, each with the last record of that key.
   */
  lemma MergeReplaceExact(m: map<string, Style>, input: Option<seq<Option<Style>>>)
    requires Merged(m, input, true).Ok?
    ensures forall k :: k in Merged(m, input, true).value <==>
      exists i :: 0 <= i < |input.value| && KeyOf(input.value[i].value) == k
    ensures forall j ::
      (&& 0 <= j < |input.value|
       && forall i :: j < i < |input.value| ==> KeyOf(input.value[i].value) != KeyOf(input.value[j].value))
      ==> Merged(m, input, true).value[KeyOf(input.value[j].value)] == input.value[j].value
  {
    var rs := MergeInput(input).value;
    assert Merged(m, input, true) == Ok(Inserted(map[], rs));
    assert forall i :: 0 <= i < |rs| ==> input.value[i].value == rs[i];
    InsertedKeys(map[], rs);
    forall j | 0 <= j < |rs| && (forall i :: j < i < |rs| ==> KeyOf(rs[i]) != KeyOf(rs[j]))
      ensures Inserted(map[], rs)[KeyOf(rs[j])] == rs[j]
    {
      InsertedLastWins(map[], rs, j);
    }
  }

  /**
   * `merge(input, false)`: no key is lost, and an entry no input record
   * names keeps its old style.
   */
  lemma MergeKeepsOthers(m: map<string, Style>, input: Option<seq<Option<Style>>>)
    requires Merged(m, input, false).Ok?
    ensures m.Keys <= Merged(m, input, false).value.Keys
    ensures forall k :: k in m && (forall i :: 0 <= i < |input.value| ==> KeyOf(input.value[i].value) != k) ==>
      Merged(m, input, false).value[k] == m[k]
  {
    var rs := MergeInput(input).value;
    InsertedKeys(m, rs);
    forall k | k in m && (forall i :: 0 <= i < |rs| ==> KeyOf(rs[i]) != k)
      ensures Inserted(m, rs)[k] == m[k]
    {
      InsertedUntouched(m, rs, k);
    }
  }

  /** A successful merge keeps every entry under the key of its name. */
  lemma MergeKeyedByName(m: map<string, Style>, input: Option<seq<Option<Style>>>, replace: bool)
    requires KeyedByName(m) && Merged(m, input, replace).Ok?
    ensures KeyedByName(Merged(m, input, replace).value)
  {
    InsertedKeyedByName(if replace then map[] else m, MergeInput(input).value);
  }

  /**
   * `rename(oldName, newName)`: the checks in the order src/styles.ts makes
   * them, then the record, renamed, stored under the new key and the old
   * key removed. The clash test looks up the raw `newName`, not its key.
   */
  function Renamed(m: map<string, Style>, oldName: string, newName: string): (r: Result<map<string, Style>>)
    ensures oldName == "" ==> r == Err(ArgumentRequired("styleName"))
    ensures oldName != "" && Lower(oldName) !in m ==> r == Err(NotFound(oldName))
    ensures oldName != "" && Lower(oldName) in m && newName == "" ==> r == Err(ArgumentRequired("styleName"))
    ensures oldName != "" && Lower(oldName) in m && newName != "" && newName in m ==> r == Err(AlreadyExists(newName))
    ensures r.Ok? <==> oldName != "" && Lower(oldName) in m && newName != "" && newName !in m
    ensures r.Err? && r.error.NotFound? ==> r.error.name == oldName && oldName != ""
    ensures r.Err? && r.error.AlreadyExists? ==> r.error.name == newName && Lower(oldName) in m
    ensures r.Ok? ==> |r.value| <= |m|
  {
    var oldKey :- KeyFor(oldName);
    if oldKey !in m then Err(NotFound(oldName))
    else
      var newKey :- KeyFor(newName);
      if newName in m then Err(AlreadyExists(newName))
      else Ok(m[newKey := m[oldKey].(styleName := newName)] - {oldKey})
  }

  /** A rename between different keys moves the record and touches nothing else. */
  lemma RenameMoves(m: map<string, Style>, oldName: string, newName: string)
    requires Renamed(m, oldName, newName).Ok? && Lower(oldName) != Lower(newName)
    ensures var r := Renamed(m, oldName, newName).value;
      && Lower(newName) in r && r[Lower(newName)] == m[Lower(oldName)].(styleName := newName)
      && Lower(oldName) !in r
      && forall k :: k != Lower(oldName) && k != Lower(newName) ==> (k in r <==> k in m) && (k in r ==> r[k] == m[k])
  {
  }

  /**
   * A rename to a case variant of the old name (e.g. `rename("oldName",
   * "oldName")`) stores the record under the same key it then deletes:
   * the record is gone.
   */
  lemma RenameToSameKeyRemoves(m: map<string, Style>, oldName: string, newName: string)
    requires Renamed(m, oldName, newName).Ok? && Lower(oldName) == Lower(newName)
    ensures Renamed(m, oldName, newName).value == m - {Lower(oldName)}
    ensures |Renamed(m, oldName, newName).value| == |m| - 1
  {
  }

  /**
   * A successful rename loses one entry exactly when the new key was
   * already taken: by the record itself, or by another record whose name
   * differs from `newName` in case, which is overwritten.
   */
  lemma RenameSize(m: map<string, Style>, oldName: string, newName: string)
    requires Renamed(m, oldName, newName).Ok?
    ensures |Renamed(m, oldName, newName).value| == if Lower(newName) in m then |m| - 1 else |m|
  {
  }

  /**
   * Stored keys are lower case, so a `newName` with an upper-case letter
   * never clashes: the rename goes ahead even when its key is taken.
   */
  lemma RenameWithUpperNeverClashes(m: map<string, Style>, oldName: string, newName: string)
    requires KeyedByName(m)
    requires oldName != "" && Lower(oldName) in m
    requires HasUpper(newName)
    ensures Renamed(m, oldName, newName).Ok?
  {
  }

  /**
   * With the old style present, a non-empty `newName` is refused as taken
   * exactly when it has no upper-case letter and its key is stored: the
   * existence test looks `newName` up as given, and stored keys are lower
   * case.
   */
  lemma RenameClashIff(m: map<string, Style>, oldName: string, newName: string)
    requires KeyedByName(m)
    requires oldName != "" && Lower(oldName) in m && newName != ""
    ensures Renamed(m, oldName, newName) == Err(AlreadyExists(newName)) <==> !HasUpper(newName) && Lower(newName) in m
  {
    if !HasUpper(newName) {
      LowerFixesLowerCase(newName);
    }
  }

  /** A successful rename keeps every entry under the key of its name. */
  lemma RenameKeyedByName(m: map<string, Style>, oldName: string, newName: string)
    requires KeyedByName(m) && Renamed(m, oldName, newName).Ok?
    ensures KeyedByName(Renamed(m, oldName, newName).value)
  {
  }

  /** `keys.map(key => styles.get(key))`: the records in key order. */
  function Listed(m: map<string, Style>, ks: seq<string>): (r: seq<Style>)
    requires KeyedByName(m) && SortedListOf(ks, m.Keys)
    ensures |r| == |m|
    ensures forall i, j :: 0 <= i < j < |r| ==> Less(KeyOf(r[i]), KeyOf(r[j]))
    ensures forall i :: 0 <= i < |r| ==> KeyOf(r[i]) in m && m[KeyOf(r[i])] == r[i]
    ensures forall k :: k in m ==> m[k] in r
  {
    var r := seq(|ks|, i requires 0 <= i < |ks| => m[ks[i]]);
    ListingFacts(m, ks, r);
    r
  }

  lemma ListingFacts(m: map<string, Style>, ks: seq<string>, r: seq<Style>)
    requires KeyedByName(m) && SortedListOf(ks, m.Keys)
    requires |r| == |ks| && forall i :: 0 <= i < |ks| ==> r[i] == m[ks[i]]
    ensures |r| == |m|
    ensures forall i, j :: 0 <= i < j < |r| ==> Less(KeyOf(r[i]), KeyOf(r[j]))
    ensures forall i :: 0 <= i < |r| ==> KeyOf(r[i]) in m && m[KeyOf(r[i])] == r[i]
    ensures forall k :: k in m ==> m[k] in r
  {
    SortedListLength(ks, m.Keys);
    assert forall i :: 0 <= i < |r| ==> KeyOf(r[i]) == ks[i];
    forall k | k in m ensures m[k] in r {
      var i :| 0 <= i < |ks| && ks[i] == k;
      assert r[i] == m[k];
    }
  }

  /** The records as `save` writes them and `init` reads them back. */
  function Wrapped(rs: seq<Style>): (xs: seq<Option<Style>>)
    ensures |xs| == |rs| && forall i :: 0 <= i < |rs| ==> xs[i] == Some(rs[i])
  {
    seq(|rs|, i requires 0 <= i < |rs| => Some(rs[i]))
  }

  /**
   * Reading back what `save` wrote restores the map: merging (with
   * replace) the stored records, listed in key order as `Listed` gives
   * them, yields the map again.
   */
  lemma ReloadRestores(m: map<string, Style>, ks: seq<string>, rs: seq<Style>)
    requires KeyedByName(m) && SortedListOf(ks, m.Keys)
    requires |rs| == |ks| && forall i :: 0 <= i < |ks| ==> rs[i] == m[ks[i]]
    ensures Merged(map[], Some(Wrapped(rs)), true) == Ok(m)
  {
    WrappedIsValid(rs);
    InsertedRestores(m, ks, rs);
  }

  /** Named records, as written, pass the validation of `merge` unchanged. */
  lemma WrappedIsValid(rs: seq<Style>)
    requires forall i :: 0 <= i < |rs| ==> rs[i].styleName != ""
    ensures MergeInput(Some(Wrapped(rs))) == Ok(rs)
  {
    var xs := Wrapped(rs);
    assert forall i :: 0 <= i < |xs| ==> ValidStyle(xs[i]);
    assert Unwrapped(xs) == rs;
  }

  lemma InsertedRestores(m: map<string, Style>, ks: seq<string>, rs: seq<Style>)
    requires KeyedByName(m) && SortedListOf(ks, m.Keys)
    requires |rs| == |ks| && forall i :: 0 <= i < |ks| ==> rs[i] == m[ks[i]]
    ensures Inserted(map[], rs) == m
  {
    InsertedAgrees(m, rs);
    forall k | k in m ensures k in Inserted(map[], rs) {
      var i :| 0 <= i < |ks| && ks[i] == k;
      InsertedContains(map[], rs, i);
    }
  }

  lemma {:induction false} InsertedContains(m: map<string, Style>, rs: seq<Style>, i: int)
    requires 0 <= i < |rs|
    ensures KeyOf(rs[i]) in Inserted(m, rs)
    decreases |rs|
  {
    if i < |rs| - 1 {
      InsertedContains(m, rs[..|rs| - 1], i);
    }
  }

  lemma {:induction false} InsertedAgrees(m: map<string, Style>, rs: seq<Style>)
    requires forall i :: 0 <= i < |rs| ==> KeyOf(rs[i]) in m && m[KeyOf(rs[i])] == rs[i]
    ensures forall k :: k in Inserted(map[], rs) ==> k in m && Inserted(map[], rs)[k] == m[k]
    decreases |rs|
  {
    if rs != [] {
      InsertedAgrees(m, rs[..|rs| - 1]);
    }
  }
}
