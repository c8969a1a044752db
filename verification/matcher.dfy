/** The choice between the stored and the live display list in `main`
    (display-controller.py:370-384, with `get_edids` at :336-337).

    When a stored configuration exists and every EDID reported by the live
    scan occurs among the stored EDIDs, the stored list (its order being the
    physical left-to-right order) is used, each stored display renamed after
    the first live display with the same EDID. Otherwise the live list is
    used as it is. */
module Matcher {
  import opened Wrappers
  import opened Displays

  /** Position of the first display with EDID `edid`, if any. */
  function FirstWithEdid(current: seq<Display>, edid: string): (r: Option<nat>)
    ensures r.None? <==> forall i :: 0 <= i < |current| ==> current[i].edid != edid
    ensures r.Some? ==> r.value < |current| && current[r.value].edid == edid
    ensures r.Some? ==> forall j :: 0 <= j < r.value ==> current[j].edid != edid
  {
    if |current| == 0 then None
    else if current[0].edid == edid then Some(0)
    else
      match FirstWithEdid(current[1..], edid)
      case None => None
      case Some(i) => Some(i + 1)
  }

  /** `next(iter([d.name for d in current if d.edid == edid]), None)`: the name
      of the first live display with that EDID, or None when there is none. */
  function FirstNameWithEdid(current: seq<Display>, edid: string): (r: Option<string>)
    ensures r.None? <==> forall k :: 0 <= k < |current| ==> current[k].edid != edid
    ensures r.Some? ==> exists k :: 0 <= k < |current| && current[k].edid == edid && r.value == current[k].name
                                    && forall j :: 0 <= j < k ==> current[j].edid != edid
  {
    match FirstWithEdid(current, edid)
    case None => None
    case Some(i) => Some(current[i].name)
  }

  /** The set of EDIDs of a display list (`set(get_edids(...))`). */
  function EdidSet(displays: seq<Display>): (r: set<string>)
    ensures forall e :: e in r <==> exists i :: 0 <= i < |displays| && displays[i].edid == e
  {
    set i | 0 <= i < |displays| :: displays[i].edid
  }

  /** Some display of the list has EDID `edid`. */
  predicate HasEdid(displays: seq<Display>, edid: string) {
    exists j :: 0 <= j < |displays| && displays[j].edid == edid
  }

  /** The test at display-controller.py:373-377 that switches to the stored
      list: a stored list exists and every live EDID occurs in it. */
  predicate UsesStored(stored: Option<seq<Display>>, current: seq<Display>)
    ensures UsesStored(stored, current) <==>
              stored.Some? && forall i :: 0 <= i < |current| ==> HasEdid(stored.value, current[i].edid)
  {
    if stored.None? then
      false
    else
      EdidSubsetIff(current, stored.value);
      EdidSet(current) <= EdidSet(stored.value)
  }

  lemma EdidSubsetIff(current: seq<Display>, stored: seq<Display>)
    ensures EdidSet(current) <= EdidSet(stored) <==> forall i :: 0 <= i < |current| ==> HasEdid(stored, current[i].edid)
  {
    if EdidSet(current) <= EdidSet(stored) {
      forall i | 0 <= i < |current| ensures HasEdid(stored, current[i].edid) {
        assert current[i].edid in EdidSet(current);
        assert current[i].edid in EdidSet(stored);
      }
    } else {
      var e :| e in EdidSet(current) && e !in EdidSet(stored);
      var i :| 0 <= i < |current| && current[i].edid == e;
      assert !HasEdid(stored, current[i].edid);
    }
  }

  /** One display renamed after the live scan: it takes the name of the first
      live display with its EDID, or keeps its own when none has it; nothing
      else about it changes. */
  function Rename(display: Display, current: seq<Display>): (r: Display)
    ensures r == display.(name := r.name)
    ensures (exists k :: 0 <= k < |current| && current[k].edid == display.edid && r.name == current[k].name
                         && forall j :: 0 <= j < k ==> current[j].edid != display.edid)
            || ((forall k :: 0 <= k < |current| ==> current[k].edid != display.edid) && r.name == display.name)
  {
    display.(name := FirstNameWithEdid(current, display.edid).GetOr(display.name))
  }

  /** The renaming loop at display-controller.py:383-384: each stored display
      takes the name of the first live display with its EDID, or keeps its own;
      nothing else about it changes, and none is added, dropped or reordered.
      When the stored list is the one chosen, the loop yields the list
      `SelectDisplays` describes. */
  method RenameFromScan(stored: seq<Display>, current: seq<Display>) returns (renamed: seq<Display>)
    ensures |renamed| == |stored|
    ensures forall i :: 0 <= i < |stored| ==> renamed[i] == stored[i].(name := renamed[i].name)
    ensures forall i :: 0 <= i < |stored| ==>
              (exists k :: 0 <= k < |current| && current[k].edid == stored[i].edid
                           && renamed[i].name == current[k].name
                           && forall j :: 0 <= j < k ==> current[j].edid != stored[i].edid)
              || ((forall k :: 0 <= k < |current| ==> current[k].edid != stored[i].edid)
                  && renamed[i].name == stored[i].name)
    ensures UsesStored(Some(stored), current) ==> renamed == SelectDisplays(Some(stored), current)
  {
    renamed := [];
    for i := 0 to |stored|
      invariant |renamed| == i
      invariant forall m :: 0 <= m < i ==> renamed[m] == Rename(stored[m], current)
    {
      var display := stored[i];
      var name := FirstNameWithEdid(current, display.edid).GetOr(display.name);
      renamed := renamed + [display.(name := name)];
    }
  }

  /** The display list `main` goes on to configure. */
  function SelectDisplays(stored: Option<seq<Display>>, current: seq<Display>): (r: seq<Display>)
    ensures !UsesStored(stored, current) ==> r == current
    ensures UsesStored(stored, current) ==> |r| == |stored.value|
    ensures UsesStored(stored, current) ==>
              forall i :: 0 <= i < |r| ==> r[i] == stored.value[i].(name := r[i].name)
    ensures UsesStored(stored, current) ==>
              forall i :: 0 <= i < |r| ==>
                r[i].name == FirstNameWithEdid(current, stored.value[i].edid).GetOr(stored.value[i].name)
    ensures UsesStored(stored, current) ==> forall i :: 0 <= i < |r| ==> r[i] == Rename(stored.value[i], current)
  {
    if UsesStored(stored, current) then
      seq(|stored.value|, i requires 0 <= i < |stored.value| => Rename(stored.value[i], current))
    else
      current
  }

  /** Every live display's EDID occurs in the selected list, whichever list is chosen. */
  lemma SelectedCoversCurrent(stored: Option<seq<Display>>, current: seq<Display>)
    ensures EdidSet(current) <= EdidSet(SelectDisplays(stored, current))
  {
    if UsesStored(stored, current) {
      var r := SelectDisplays(stored, current);
      assert forall i :: 0 <= i < |r| ==> r[i].edid == stored.value[i].edid;
      assert EdidSet(r) == EdidSet(stored.value);
    }
  }

  /** A stored display whose monitor is no longer connected is not dropped: it
      stays at its position under its stored name. */
  lemma DisconnectedStoredDisplayKept(stored: seq<Display>, current: seq<Display>, i: nat)
    requires EdidSet(current) <= EdidSet(stored)
    requires i < |stored|
    requires stored[i].edid !in EdidSet(current)
    ensures SelectDisplays(Some(stored), current)[i] == stored[i]
  {
  }

  /** A stored display whose monitor is connected takes the live name of that
      monitor: the first live display with its EDID. */
  lemma ConnectedStoredDisplayRenamed(stored: seq<Display>, current: seq<Display>, i: nat, k: nat)
    requires EdidSet(current) <= EdidSet(stored)
    requires i < |stored| && k < |current|
    requires current[k].edid == stored[i].edid
    requires forall j :: 0 <= j < k ==> current[j].edid != stored[i].edid
    ensures SelectDisplays(Some(stored), current)[i] == stored[i].(name := current[k].name)
  {
    var m := FirstWithEdid(current, stored[i].edid);
    assert m.Some?;
    assert m.value == k;
  }
}
