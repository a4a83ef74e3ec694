/**
 * Properties of `Styles` that span several calls, proved from the
 * contracts of its methods alone, as a caller sees them.
 */
module Scenarios {
  import opened Wrappers
  import opened Text
  import opened SortedKeys
  import opened StyleRecord
  import opened StoreSpec
  import opened Store

  /** `delete` succeeds once per stored style; the second call returns false and changes nothing. */
  method DeleteTwice(s: Styles, name: string) returns (first: Result<bool>, second: Result<bool>)
    requires s.Valid() && name != ""
    modifies s
    ensures s.Valid()
    ensures first == Ok(Lower(name) in old(s.styles))
    ensures second == Ok(false)
    ensures s.styles == old(s.styles) - {Lower(name)}
    ensures Lower(name) !in old(s.styles) ==> unchanged(s)
    ensures s.rev == old(s.rev) + (if Lower(name) in old(s.styles) then 1 else 0)
    ensures s.saved == old(s.saved) && s.saver == old(s.saver)
  {
    first := s.Delete(name);
    ghost var mid := s.rev;
    second := s.Delete(name);
    assert s.rev == mid;
  }

  /** After `set`, looking the style up by any case variant of its name finds it. */
  method SetThenGet(s: Styles, style: Style, variant: string) returns (key: Result<string>)
    requires s.Valid() && style.styleName != "" && EqualIgnoringCase(style.styleName, variant)
    modifies s
    ensures s.Valid()
    ensures key == Ok(Lower(style.styleName)) && key == KeyFor(variant)
    ensures s.Get(variant) == Ok(Some(style))
  {
    key := s.Set(Some(style));
    LowerEqualIff(style.styleName, variant);
    s.GetIgnoresCase(style.styleName, variant);
  }

  /**
   * A change made while a write is in flight: the write records the token
   * it captured before the change, so the store stays dirty and the next
   * save writes again.
   */
  method ChangeDuringWrite(s: Styles, style: Style, writeOk: bool) returns (dirtyAfter: bool)
    requires s.Valid() && s.Dirty() && style.styleName != ""
    modifies s
    ensures s.Valid()
    ensures dirtyAfter && s.Dirty()
  {
    var p := s.BeginSave();
    var _ := s.Set(Some(style));
    s.FinishSave(p.value, writeOk);
    dirtyAfter := s.Dirty();
  }

  /** A failed write leaves the store dirty, so the next save writes the same records again. */
  method FailedWriteRetries(s: Styles) returns (first: Option<seq<Style>>, second: Option<seq<Style>>)
    requires s.Valid() && s.Dirty()
    modifies s
    ensures s.Valid()
    ensures first.Some? && second == first
    ensures !s.Dirty()
  {
    first := s.Save(false);
    second := s.Save(true);
  }

  /**
   * The timer started by `init` fires at most once: its callback, `flush`,
   * stops it, so a change made after the first firing is never saved by
   * a later one.
   */
  method TimerFiresOnce(s: Styles, loaded: Option<seq<Option<Style>>>, a: Style, b: Style)
    returns (first: Option<seq<Style>>, second: Option<seq<Style>>)
    requires s.Valid() && a.styleName != "" && b.styleName != ""
    modifies s
    ensures s.Valid()
    ensures first.Some? && second.None?
    ensures s.Dirty() && s.saver == None
  {
    s.Init(loaded);
    var _ := s.Set(Some(a));
    first := s.Tick(true);
    var _ := s.Set(Some(b));
    second := s.Tick(true);
  }

  /**
   * `flush`, then `clear` and `init` from what was written, lists the same
   * styles in the same order (reading decodes exactly what was written).
   */
  method FlushClearInit(s: Styles) returns (before: seq<Style>, after: seq<Style>)
    requires s.Valid() && s.Dirty()
    modifies s
    ensures s.Valid() && !s.Dirty()
    ensures after == before
  {
    before := s.List();
    ghost var m, oldKeys := s.styles, s.keys;
    var written := s.Flush(true);
    s.Clear();
    s.Init(Some(Wrapped(written.value)));
    ReloadRestores(m, oldKeys, written.value);
    assert s.styles == m;
    after := s.List();
    SortedListUnique(oldKeys, s.keys, m.Keys);
  }

  /**
   * `rename("oldName", "oldName")` on a fresh store holding that style:
   * the call succeeds and the style is gone, since it is stored and then
   * deleted under the same key.
   */
  method RenameToItself() returns (r: Result<Style>, found: Result<Option<Style>>)
    ensures r == Ok(Style("oldName", map[]))
    ensures found == Ok(None)
  {
    var s := new Styles("data");
    var key := s.Set(Some(Style("oldName", map[])));
    r := s.Rename("oldName", "oldName");
    RenameToSameKeyRemoves(map[Lower("oldName") := Style("oldName", map[])], "oldName", "oldName");
    found := s.Get("oldName");
  }
}
