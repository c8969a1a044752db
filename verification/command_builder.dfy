/** `DisplayController.configure` (display-controller.py:259-290): the
    `xrandr` command line assembled for a display list, a mode, the
    "extend all" flag and a direction. Running the command is not modelled. */
module CommandBuilder {
  import opened Strings
  import opened Wrappers
  import opened Displays

  datatype DisplayMode = Clone | InternalOnly | InternalExtend | ExternalOnly

  /** One option after `--output <name>`; a target is an index into the display list. */
  datatype Arg = Primary | Auto | Off | SameAs(target: nat) | RelativeOf(direction: string, target: nat)

  predicate HasTarget(a: Arg) {
    a.SameAs? || a.RelativeOf?
  }

  /** Python's `displays[i]` for `-n <= i < n`: a negative index counts from the end. */
  function PyIndex(i: int, n: nat): (r: nat)
    requires -(n as int) <= i < n
    ensures r < n
    ensures i >= 0 ==> r == i
    ensures i < 0 ==> r == n + i
  {
    if i < 0 then n + i else i
  }

  /** The options the CLONE test assigns to display `idx`
      (display-controller.py:263-267); none in the other modes. */
  function CloneArgs(mode: DisplayMode, idx: nat): (r: seq<Arg>)
    ensures r == [] <==> mode != Clone
    // in CLONE every display is switched on, and only the first is primary
    ensures mode == Clone ==> Auto in r && Off !in r
    ensures Primary in r <==> mode == Clone && idx == 0
    // a mirrored display copies the one just before it
    ensures forall k :: 0 <= k < |r| && HasTarget(r[k]) ==> idx > 0 && r[k] == SameAs(idx - 1)
  {
    if mode == Clone then (if idx == 0 then [Primary, Auto] else [Auto, SameAs(idx - 1)]) else []
  }

  /** The options the INTERNAL_ONLY / EXTERNAL_ONLY / INTERNAL_EXTEND chain
      assigns to display `idx` of `n` (display-controller.py:268-290). The
      EXTERNAL_ONLY test for index 1 is a plain `if`, so index 0 also runs its
      `elif`/`else`, and `displays[idx - 1]` is then `displays[-1]`. */
  function ChainArgs(mode: DisplayMode, extendAll: bool, direction: string, n: nat, idx: nat): (r: seq<Arg>)
    requires idx < n
    ensures r == [] <==> mode == Clone
    // the primary display: the first one, except in EXTERNAL_ONLY the second
    ensures Primary in r <==> if mode == ExternalOnly then idx == 1 else mode != Clone && idx == 0
    // positional options name a display of the list, in the requested direction,
    // and an earlier one except for the EXTERNAL_ONLY first display
    ensures forall k :: 0 <= k < |r| && HasTarget(r[k]) ==>
              r[k].RelativeOf? && r[k].direction == direction && r[k].target < n
              && (r[k].target < idx || (mode == ExternalOnly && idx == 0))
  {
    match mode
    case InternalOnly =>
      if idx == 0 then [Primary, Auto] else [Off]
    case ExternalOnly =>
      (if idx == 0 then [Off] else [])
      + (if idx == 1 then [Primary, Auto]
         else if extendAll then [Auto, RelativeOf(direction, PyIndex(idx - 1, n))]
         else [Off])
    case InternalExtend =>
      if idx == 0 then [Primary, Auto]
      else if idx == 1 then [Auto, RelativeOf(direction, idx - 1)]
      else if extendAll then [Auto, RelativeOf(direction, idx - 1)]
      else [Off]
    case Clone => []
  }

  /** The options for display `idx` of `n`: the CLONE test, then the chain. */
  function GroupArgs(mode: DisplayMode, extendAll: bool, direction: string, n: nat, idx: nat): (r: seq<Arg>)
    requires idx < n
    ensures forall k :: 0 <= k < |r| && HasTarget(r[k]) ==> r[k].target < n
    ensures forall k :: 0 <= k < |r| && r[k].RelativeOf? ==> r[k].direction == direction
  {
    CloneArgs(mode, idx) + ChainArgs(mode, extendAll, direction, n, idx)
  }

  // ---- Per-mode policy -------------------------------------------------------

  /** CLONE: the first display is primary; every other one mirrors its predecessor. */
  lemma ClonePolicy(extendAll: bool, direction: string, n: nat)
    ensures forall idx :: 0 <= idx < n ==>
              GroupArgs(Clone, extendAll, direction, n, idx)
              == if idx == 0 then [Primary, Auto] else [Auto, SameAs(idx - 1)]
  {
  }

  /** INTERNAL_ONLY: the first display is primary; every other one is switched off. */
  lemma InternalOnlyPolicy(extendAll: bool, direction: string, n: nat)
    ensures forall idx :: 0 <= idx < n ==>
              GroupArgs(InternalOnly, extendAll, direction, n, idx)
              == if idx == 0 then [Primary, Auto] else [Off]
  {
  }

  /** INTERNAL_EXTEND: the first display is primary, the second is placed next to
      it, and each later one is placed next to its predecessor only with
      "extend all", otherwise switched off. */
  lemma InternalExtendPolicy(extendAll: bool, direction: string, n: nat)
    ensures forall idx :: 0 <= idx < n ==>
              GroupArgs(InternalExtend, extendAll, direction, n, idx)
              == if idx == 0 then [Primary, Auto]
                 else if idx == 1 || extendAll then [Auto, RelativeOf(direction, idx - 1)]
                 else [Off]
  {
  }

  /** EXTERNAL_ONLY: the second display is primary and later ones are placed next
      to their predecessor or switched off. The first display is switched off and
      then, through the fall-through, either switched off again or (with "extend
      all") switched on next to the LAST display of the list. */
  lemma ExternalOnlyPolicy(extendAll: bool, direction: string, n: nat)
    ensures forall idx :: 0 <= idx < n ==>
              GroupArgs(ExternalOnly, extendAll, direction, n, idx)
              == if idx == 0 then
                   (if extendAll then [Off, Auto, RelativeOf(direction, n - 1)] else [Off, Off])
                 else if idx == 1 then [Primary, Auto]
                 else if extendAll then [Auto, RelativeOf(direction, idx - 1)]
                 else [Off]
  {
  }

  /** Every positional option names an EARLIER display, except the EXTERNAL_ONLY
      first display with "extend all", which names the last one. */
  lemma ReferencesPointBackward(mode: DisplayMode, extendAll: bool, direction: string, n: nat, idx: nat)
    requires idx < n
    ensures var r := GroupArgs(mode, extendAll, direction, n, idx);
            forall k :: 0 <= k < |r| && HasTarget(r[k]) ==>
              if mode == ExternalOnly && idx == 0 then r[k].target == n - 1
              else r[k].target < idx
  {
  }

  // ---- The command text ------------------------------------------------------

  /** `displays[j].name`. Every target a plan holds is a display of the list
      (`GroupArgs` ensures it), so the empty fallback is never taken. */
  function TargetName(names: seq<string>, j: nat): string {
    if j < |names| then names[j] else ""
  }

  /** The text of one option, with its leading space. */
  function ArgText(a: Arg, names: seq<string>): string {
    match a
    case Primary => " --primary"
    case Auto => " --auto"
    case Off => " --off"
    case SameAs(j) => " --same-as " + TargetName(names, j)
    case RelativeOf(d, j) => " --" + d + "-of " + TargetName(names, j)
  }

  predicate TargetsWithin(args: seq<Arg>, n: nat) {
    forall k :: 0 <= k < |args| && HasTarget(args[k]) ==> args[k].target < n
  }

  function ArgsText(args: seq<Arg>, names: seq<string>): string {
    if |args| == 0 then "" else ArgText(args[0], names) + ArgsText(args[1..], names)
  }

  /** Every positional option of the plan uses `direction`. */
  predicate Directed(plan: seq<seq<Arg>>, direction: string) {
    forall idx, k :: 0 <= idx < |plan| && 0 <= k < |plan[idx]| && plan[idx][k].RelativeOf? ==>
      plan[idx][k].direction == direction
  }

  /** The options of every display of `n`, in list order. */
  function Plan(mode: DisplayMode, extendAll: bool, direction: string, n: nat): (p: seq<seq<Arg>>)
    ensures |p| == n
    ensures forall idx :: 0 <= idx < n ==> p[idx] == GroupArgs(mode, extendAll, direction, n, idx)
  {
    seq(n, idx requires 0 <= idx < n => GroupArgs(mode, extendAll, direction, n, idx))
  }

  /** Every option of the plan names a display of the list, and every
      positional one uses the requested direction. */
  lemma PlanWellFormed(mode: DisplayMode, extendAll: bool, direction: string, n: nat)
    ensures Directed(Plan(mode, extendAll, direction, n), direction)
    ensures forall idx :: 0 <= idx < n ==> TargetsWithin(Plan(mode, extendAll, direction, n)[idx], n)
  {
    var p := Plan(mode, extendAll, direction, n);
    forall idx | 0 <= idx < n
      ensures TargetsWithin(p[idx], n)
      ensures forall k :: 0 <= k < |p[idx]| && p[idx][k].RelativeOf? ==> p[idx][k].direction == direction
    {
      assert p[idx] == GroupArgs(mode, extendAll, direction, n, idx);
    }
  }

  /** The text of the group for display `idx`: ` --output <name>` and its options. */
  function GroupText(displays: seq<Display>, plan: seq<seq<Arg>>, idx: nat): string
    requires |plan| == |displays| && idx < |displays|
  {
    " --output " + displays[idx].name + ArgsText(plan[idx], Names(displays))
  }

  /** The text of the groups of the first `k` displays, in list order. */
  function GroupsText(displays: seq<Display>, plan: seq<seq<Arg>>, k: nat): string
    requires |plan| == |displays| && k <= |displays|
  {
    if k == 0 then "" else GroupsText(displays, plan, k - 1) + GroupText(displays, plan, k - 1)
  }

  /** The command line `configure` hands to the shell: `xrandr` alone for an
      empty list, otherwise `xrandr --output <first display> ...`. */
  function Command(displays: seq<Display>, mode: DisplayMode, extendAll: bool, direction: string): (r: string)
    ensures |displays| == 0 ==> r == "xrandr"
    ensures |displays| > 0 ==> StartsWith(r, "xrandr --output " + displays[0].name)
  {
    var plan := Plan(mode, extendAll, direction, |displays|);
    var r := "xrandr" + GroupsText(displays, plan, |displays|);
    if |displays| == 0 then
      r
    else
      CommandPrefix(displays, plan);
      r
  }

  lemma CommandPrefix(displays: seq<Display>, plan: seq<seq<Arg>>)
    requires |plan| == |displays| > 0
    ensures StartsWith("xrandr" + GroupsText(displays, plan, |displays|), "xrandr --output " + displays[0].name)
  {
    GroupsTextStartsWithFirst(displays, plan, |displays|);
    var g := GroupsText(displays, plan, |displays|);
    var name := displays[0].name;
    var p := " --output " + name;
    assert GroupText(displays, plan, 0) == p + ArgsText(plan[0], Names(displays));
    var tail :| g == GroupText(displays, plan, 0) + tail;
    var rest := ArgsText(plan[0], Names(displays)) + tail;
    ConcatAssoc(p, ArgsText(plan[0], Names(displays)), tail);
    ConcatAssoc("xrandr", p, rest);
    ConcatAssoc("xrandr", " --output ", name);
    assert "xrandr" + " --output " == "xrandr --output ";
    assert "xrandr" + g == ("xrandr --output " + name) + rest;
  }

  /** The groups of the first `k >= 1` displays start with the group of display 0. */
  lemma {:induction false} GroupsTextStartsWithFirst(displays: seq<Display>, plan: seq<seq<Arg>>, k: nat)
    requires |plan| == |displays| && 1 <= k <= |displays|
    ensures StartsWith(GroupsText(displays, plan, k), GroupText(displays, plan, 0))
  {
    if k > 1 {
      GroupsTextStartsWithFirst(displays, plan, k - 1);
      var tail :| GroupsText(displays, plan, k - 1) == GroupText(displays, plan, 0) + tail;
      ConcatAssoc(GroupText(displays, plan, 0), tail, GroupText(displays, plan, k - 1));
    } else {
      assert GroupsText(displays, plan, 1) == GroupText(displays, plan, 0) + "";
    }
  }

  lemma {:induction false} ArgsTextAppend(a: seq<Arg>, b: seq<Arg>, names: seq<string>)
    ensures ArgsText(a + b, names) == ArgsText(a, names) + ArgsText(b, names)
  {
    if |a| > 0 {
      assert (a + b)[0] == a[0];
      assert (a + b)[1..] == a[1..] + b;
      ArgsTextAppend(a[1..], b, names);
      var x, y, z := ArgText(a[0], names), ArgsText(a[1..], names), ArgsText(b, names);
      assert ArgsText(a + b, names) == x + (y + z);
      assert x + (y + z) == (x + y) + z;
    } else {
      assert a + b == b;
    }
  }

  lemma ArgsTextOne(a: Arg, names: seq<string>)
    ensures ArgsText([a], names) == ArgText(a, names)
  {
    var t := ArgText(a, names);
    assert [a][1..] == [];
    assert ArgsText([a], names) == t + ArgsText([], names);
    assert t + [] == t;
  }

  lemma ArgsTextTwo(a: Arg, b: Arg, names: seq<string>)
    ensures ArgsText([a, b], names) == ArgText(a, names) + ArgText(b, names)
  {
    assert [a, b][1..] == [b];
    ArgsTextOne(b, names);
  }

  lemma PrimaryAutoText(names: seq<string>)
    ensures ArgsText([Primary, Auto], names) == " --primary --auto"
  {
    ArgsTextTwo(Primary, Auto, names);
  }

  lemma AutoSameAsText(j: nat, names: seq<string>)
    requires j < |names|
    ensures ArgsText([Auto, SameAs(j)], names) == " --auto --same-as " + names[j]
  {
    ArgsTextTwo(Auto, SameAs(j), names);
    ConcatAssoc(" --auto", " --same-as ", names[j]);
    assert " --auto" + " --same-as " == " --auto --same-as ";
  }

  lemma AutoRelativeText(direction: string, j: nat, names: seq<string>)
    requires j < |names|
    ensures ArgsText([Auto, RelativeOf(direction, j)], names) == " --auto --" + direction + "-of " + names[j]
  {
    ArgsTextTwo(Auto, RelativeOf(direction, j), names);
    assert " --auto" + (" --" + direction + "-of " + names[j]) == " --auto --" + direction + "-of " + names[j];
  }

  /** The CLONE test appends the text of exactly the CLONE options. */
  method AppendCloneOptions(options: string, displays: seq<Display>, mode: DisplayMode, idx: nat)
    returns (r: string)
    requires idx < |displays|
    ensures r == options + ArgsText(CloneArgs(mode, idx), Names(displays))
  {
    var names := Names(displays);
    if mode == Clone {
      if idx == 0 {
        r := AppendPrimary(options, names);
      } else {
        r := AppendSameAs(options, names, idx - 1);
      }
    } else {
      r := options;
      assert options + "" == options;
    }
  }

  /** ` --auto --same-as <name>` after `options`. */
  method AppendSameAs(options: string, names: seq<string>, target: nat) returns (r: string)
    requires target < |names|
    ensures r == options + ArgsText([Auto, SameAs(target)], names)
  {
    AutoSameAsText(target, names);
    r := options + " --auto --same-as " + names[target];
    ConcatAssoc(options, " --auto --same-as ", names[target]);
  }

  /** ` --primary --auto` after `options`. */
  method AppendPrimary(options: string, names: seq<string>) returns (r: string)
    ensures r == options + ArgsText([Primary, Auto], names)
  {
    PrimaryAutoText(names);
    r := options + " --primary --auto";
  }

  /** ` --off` after `options`. */
  method AppendOff(options: string, names: seq<string>) returns (r: string)
    ensures r == options + ArgsText([Off], names)
  {
    ArgsTextOne(Off, names);
    r := options + " --off";
  }

  /** ` --auto --<direction>-of <name>` after `options`. */
  method AppendRelative(options: string, names: seq<string>, direction: string, target: nat) returns (r: string)
    requires target < |names|
    ensures r == options + ArgsText([Auto, RelativeOf(direction, target)], names)
  {
    AutoRelativeText(direction, target, names);
    r := options + (" --auto --" + direction + "-of " + names[target]);
  }

  /** The INTERNAL_ONLY branch (display-controller.py:268-272). */
  method AppendInternalOnly(options: string, displays: seq<Display>, idx: nat) returns (r: string)
    requires idx < |displays|
    ensures r == options + ArgsText(if idx == 0 then [Primary, Auto] else [Off], Names(displays))
  {
    if idx == 0 {
      r := AppendPrimary(options, Names(displays));
    } else {
      r := AppendOff(options, Names(displays));
    }
  }

  /** The `if idx == 1` / `elif` / `else` part of the EXTERNAL_ONLY branch
      (display-controller.py:276-281); a negative index wraps around. */
  method AppendExternalOnlyTail(options: string, displays: seq<Display>, extendAll: bool, direction: string,
                                idx: nat)
    returns (r: string)
    requires idx < |displays|
    ensures r == options + ArgsText(ExternalOnlyTailArgs(extendAll, direction, |displays|, idx), Names(displays))
  {
    var names := Names(displays);
    if idx == 1 {
      r := AppendPrimary(options, names);
    } else if extendAll {
      r := AppendRelative(options, names, direction, PyIndex(idx - 1, |displays|));
    } else {
      r := AppendOff(options, names);
    }
  }

  /** The options of the `if idx == 1` / `elif` / `else` part of the EXTERNAL_ONLY branch. */
  function ExternalOnlyTailArgs(extendAll: bool, direction: string, n: nat, idx: nat): seq<Arg>
    requires idx < n
  {
    if idx == 1 then [Primary, Auto]
    else if extendAll then [Auto, RelativeOf(direction, PyIndex(idx - 1, n))]
    else [Off]
  }

  lemma ExternalOnlyChain(extendAll: bool, direction: string, n: nat, idx: nat)
    requires idx < n
    ensures ChainArgs(ExternalOnly, extendAll, direction, n, idx)
            == (if idx == 0 then [Off] else []) + ExternalOnlyTailArgs(extendAll, direction, n, idx)
  {
  }

  /** The text of `first + second` after `options`, given the text of each part. */
  lemma AppendTwoParts(options: string, first: seq<Arg>, second: seq<Arg>, names: seq<string>, mid: string, r: string)
    requires mid == options + ArgsText(first, names)
    requires r == mid + ArgsText(second, names)
    ensures r == options + ArgsText(first + second, names)
  {
    ArgsTextAppend(first, second, names);
    ConcatAssoc(options, ArgsText(first, names), ArgsText(second, names));
  }

  /** The EXTERNAL_ONLY branch (display-controller.py:273-281): the test for
      index 1 is a plain `if`, so index 0 goes on to its `elif`/`else`. */
  method AppendExternalOnly(options: string, displays: seq<Display>, extendAll: bool, direction: string, idx: nat)
    returns (r: string)
    requires idx < |displays|
    ensures r == options + ArgsText(ChainArgs(ExternalOnly, extendAll, direction, |displays|, idx), Names(displays))
  {
    var names := Names(displays);
    ghost var first: seq<Arg> := if idx == 0 then [Off] else [];
    var mid := options;
    if idx == 0 {
      mid := AppendOff(options, names);
    } else {
      assert options + ArgsText(first, names) == options;
    }
    r := AppendExternalOnlyTail(mid, displays, extendAll, direction, idx);
    AppendTwoParts(options, first, ExternalOnlyTailArgs(extendAll, direction, |displays|, idx), names, mid, r);
    ExternalOnlyChain(extendAll, direction, |displays|, idx);
  }

  /** The INTERNAL_EXTEND branch (display-controller.py:282-290). */
  method AppendInternalExtend(options: string, displays: seq<Display>, extendAll: bool, direction: string, idx: nat)
    returns (r: string)
    requires idx < |displays|
    ensures r == options + ArgsText(ChainArgs(InternalExtend, extendAll, direction, |displays|, idx), Names(displays))
  {
    var names := Names(displays);
    if idx == 0 {
      r := AppendPrimary(options, names);
    } else if idx == 1 || extendAll {
      r := AppendRelative(options, names, direction, idx - 1);
    } else {
      r := AppendOff(options, names);
    }
  }

  /** The text of the group for display `idx`, built the way the loop body of
      `configure` builds it. */
  method BuildGroup(displays: seq<Display>, mode: DisplayMode, extendAll: bool, direction: string, idx: nat)
    returns (group: string)
    requires idx < |displays|
    ensures group == GroupText(displays, Plan(mode, extendAll, direction, |displays|), idx)
  {
    ghost var names := Names(displays);
    ghost var cloneArgs := CloneArgs(mode, idx);
    ghost var chainArgs := ChainArgs(mode, extendAll, direction, |displays|, idx);
    var options := AppendCloneOptions("", displays, mode, idx);
    assert options == ArgsText(cloneArgs, names);
    if mode == InternalOnly {
      options := AppendInternalOnly(options, displays, idx);
    } else if mode == ExternalOnly {
      options := AppendExternalOnly(options, displays, extendAll, direction, idx);
    } else if mode == InternalExtend {
      options := AppendInternalExtend(options, displays, extendAll, direction, idx);
    } else {
      assert options == options + ArgsText(chainArgs, names);
    }
    assert options == ArgsText(cloneArgs, names) + ArgsText(chainArgs, names);
    ArgsTextAppend(cloneArgs, chainArgs, names);
    group := " --output " + displays[idx].name + options;
  }

  /** `configure` up to the point where it runs the command: the loop appends
      one group per display, so the result is the command described above. */
  method Configure(displays: seq<Display>, mode: DisplayMode, extendAll: bool, direction: string)
    returns (command: string)
    ensures command == Command(displays, mode, extendAll, direction)
  {
    ghost var plan := Plan(mode, extendAll, direction, |displays|);
    command := "xrandr";
    for idx := 0 to |displays|
      invariant command == "xrandr" + GroupsText(displays, plan, idx)
    {
      var group := BuildGroup(displays, mode, extendAll, direction, idx);
      CommandStep(displays, plan, idx, command, group);
      command := command + group;
    }
  }

  /** Appending the group of display `idx` extends the command by one group. */
  lemma CommandStep(displays: seq<Display>, plan: seq<seq<Arg>>, idx: nat, command: string, group: string)
    requires |plan| == |displays| && idx < |displays|
    requires command == "xrandr" + GroupsText(displays, plan, idx)
    requires group == GroupText(displays, plan, idx)
    ensures command + group == "xrandr" + GroupsText(displays, plan, idx + 1)
  {
    ConcatAssoc("xrandr", GroupsText(displays, plan, idx), group);
  }

  // ---- Per-mode text ---------------------------------------------------------

  /** The group text of display `idx` is its `--output` word, its name and the
      text of its options. */
  lemma GroupTextIs(displays: seq<Display>, mode: DisplayMode, extendAll: bool, direction: string, idx: nat,
                    options: string)
    requires idx < |displays|
    requires ArgsText(GroupArgs(mode, extendAll, direction, |displays|, idx), Names(displays)) == options
    ensures GroupText(displays, Plan(mode, extendAll, direction, |displays|), idx)
            == " --output " + displays[idx].name + options
  {
  }

  lemma PrimaryGroupText(displays: seq<Display>, mode: DisplayMode, extendAll: bool, direction: string, idx: nat)
    requires idx < |displays|
    requires GroupArgs(mode, extendAll, direction, |displays|, idx) == [Primary, Auto]
    ensures GroupText(displays, Plan(mode, extendAll, direction, |displays|), idx)
            == " --output " + displays[idx].name + " --primary --auto"
  {
    PrimaryAutoText(Names(displays));
    GroupTextIs(displays, mode, extendAll, direction, idx, " --primary --auto");
  }

  lemma OffGroupText(displays: seq<Display>, mode: DisplayMode, extendAll: bool, direction: string, idx: nat)
    requires idx < |displays|
    requires GroupArgs(mode, extendAll, direction, |displays|, idx) == [Off]
    ensures GroupText(displays, Plan(mode, extendAll, direction, |displays|), idx)
            == " --output " + displays[idx].name + " --off"
  {
    ArgsTextOne(Off, Names(displays));
    GroupTextIs(displays, mode, extendAll, direction, idx, " --off");
  }

  lemma RelativeGroupText(displays: seq<Display>, mode: DisplayMode, extendAll: bool, direction: string,
                          idx: nat, j: nat)
    requires idx < |displays| && j < |displays|
    requires GroupArgs(mode, extendAll, direction, |displays|, idx) == [Auto, RelativeOf(direction, j)]
    ensures GroupText(displays, Plan(mode, extendAll, direction, |displays|), idx)
            == " --output " + displays[idx].name + (" --auto --" + direction + "-of " + displays[j].name)
  {
    AutoRelativeText(direction, j, Names(displays));
    GroupTextIs(displays, mode, extendAll, direction, idx, " --auto --" + direction + "-of " + displays[j].name);
  }

  /** CLONE as text: ` --output <first> --primary --auto`, then
      ` --output <name> --auto --same-as <previous name>` for every later display. */
  lemma CloneText(displays: seq<Display>, extendAll: bool, direction: string, idx: nat)
    requires idx < |displays|
    ensures GroupText(displays, Plan(Clone, extendAll, direction, |displays|), idx)
            == " --output " + displays[idx].name
               + (if idx == 0 then " --primary --auto" else " --auto --same-as " + displays[idx - 1].name)
  {
    ClonePolicy(extendAll, direction, |displays|);
    if idx == 0 {
      PrimaryGroupText(displays, Clone, extendAll, direction, idx);
    } else {
      AutoSameAsText(idx - 1, Names(displays));
      GroupTextIs(displays, Clone, extendAll, direction, idx, " --auto --same-as " + displays[idx - 1].name);
    }
  }

  /** INTERNAL_ONLY as text: the first display ` --primary --auto`, every other ` --off`. */
  lemma InternalOnlyText(displays: seq<Display>, extendAll: bool, direction: string, idx: nat)
    requires idx < |displays|
    ensures GroupText(displays, Plan(InternalOnly, extendAll, direction, |displays|), idx)
            == " --output " + displays[idx].name + (if idx == 0 then " --primary --auto" else " --off")
  {
    InternalOnlyPolicy(extendAll, direction, |displays|);
    if idx == 0 {
      PrimaryGroupText(displays, InternalOnly, extendAll, direction, idx);
    } else {
      OffGroupText(displays, InternalOnly, extendAll, direction, idx);
    }
  }

  /** INTERNAL_EXTEND as text: the first display ` --primary --auto`; the second,
      and with "extend all" every later one, ` --auto --<direction>-of <previous name>`;
      otherwise ` --off`. */
  lemma InternalExtendText(displays: seq<Display>, extendAll: bool, direction: string, idx: nat)
    requires idx < |displays|
    ensures GroupText(displays, Plan(InternalExtend, extendAll, direction, |displays|), idx)
            == " --output " + displays[idx].name
               + (if idx == 0 then " --primary --auto"
                  else if idx == 1 || extendAll then " --auto --" + direction + "-of " + displays[idx - 1].name
                  else " --off")
  {
    InternalExtendPolicy(extendAll, direction, |displays|);
    if idx == 0 {
      PrimaryGroupText(displays, InternalExtend, extendAll, direction, idx);
    } else if idx == 1 || extendAll {
      RelativeGroupText(displays, InternalExtend, extendAll, direction, idx, idx - 1);
    } else {
      OffGroupText(displays, InternalExtend, extendAll, direction, idx);
    }
  }

  /** EXTERNAL_ONLY as text for every display but the first: the second
      ` --primary --auto`; later ones ` --auto --<direction>-of <previous name>`
      with "extend all", otherwise ` --off`. The first display is described by
      `ExternalOnlyFirstDisplayText`. */
  lemma ExternalOnlyText(displays: seq<Display>, extendAll: bool, direction: string, idx: nat)
    requires 0 < idx < |displays|
    ensures GroupText(displays, Plan(ExternalOnly, extendAll, direction, |displays|), idx)
            == " --output " + displays[idx].name
               + (if idx == 1 then " --primary --auto"
                  else if extendAll then " --auto --" + direction + "-of " + displays[idx - 1].name
                  else " --off")
  {
    ExternalOnlyPolicy(extendAll, direction, |displays|);
    if idx == 1 {
      PrimaryGroupText(displays, ExternalOnly, extendAll, direction, idx);
    } else if extendAll {
      RelativeGroupText(displays, ExternalOnly, extendAll, direction, idx, idx - 1);
    } else {
      OffGroupText(displays, ExternalOnly, extendAll, direction, idx);
    }
  }

  // ---- Reading the command back ----------------------------------------------

  /** The words of one option. */
  function ArgWords(a: Arg, names: seq<string>): seq<string>
  {
    match a
    case Primary => ["--primary"]
    case Auto => ["--auto"]
    case Off => ["--off"]
    case SameAs(j) => ["--same-as", TargetName(names, j)]
    case RelativeOf(d, j) => ["--" + d + "-of", TargetName(names, j)]
  }

  function ArgsWords(args: seq<Arg>, names: seq<string>): seq<string>
  {
    if |args| == 0 then [] else ArgWords(args[0], names) + ArgsWords(args[1..], names)
  }

  function GroupWords(displays: seq<Display>, plan: seq<seq<Arg>>, idx: nat): seq<string>
    requires |plan| == |displays| && idx < |displays|
  {
    ["--output", displays[idx].name] + ArgsWords(plan[idx], Names(displays))
  }

  /** The words of the groups of the first `k` displays. */
  function PlanWords(displays: seq<Display>, plan: seq<seq<Arg>>, k: nat): seq<string>
    requires |plan| == |displays| && k <= |displays|
  {
    if k == 0 then [] else PlanWords(displays, plan, k - 1) + GroupWords(displays, plan, k - 1)
  }

  /** The words after "xrandr" on the command line. */
  function CommandWords(displays: seq<Display>, mode: DisplayMode, extendAll: bool, direction: string): seq<string> {
    PlanWords(displays, Plan(mode, extendAll, direction, |displays|), |displays|)
  }

  /** Each word preceded by one space. */
  function Spaced(words: seq<string>): string {
    if |words| == 0 then "" else " " + words[0] + Spaced(words[1..])
  }

  lemma {:induction false} SpacedAppend(a: seq<string>, b: seq<string>)
    ensures Spaced(a + b) == Spaced(a) + Spaced(b)
  {
    if |a| == 0 {
      assert a + b == b;
    } else {
      assert (a + b)[0] == a[0];
      assert (a + b)[1..] == a[1..] + b;
      SpacedAppend(a[1..], b);
      var x, y, z := " " + a[0], Spaced(a[1..]), Spaced(b);
      assert Spaced(a + b) == x + (y + z);
      assert x + (y + z) == (x + y) + z;
    }
  }

  lemma SpacedOne(a: string)
    ensures Spaced([a]) == " " + a
  {
    assert [a][1..] == [];
  }

  lemma SpacedTwo(a: string, b: string)
    ensures Spaced([a, b]) == " " + a + " " + b
  {
    assert [a, b][1..] == [b];
    SpacedOne(b);
  }

  lemma ArgWordsText(a: Arg, names: seq<string>)
    ensures Spaced(ArgWords(a, names)) == ArgText(a, names)
  {
    match a
    case Primary => SpacedOne("--primary");
    case Auto => SpacedOne("--auto");
    case Off => SpacedOne("--off");
    case SameAs(j) => SpacedTwo("--same-as", TargetName(names, j));
    case RelativeOf(d, j) => RelativeWordsText(d, TargetName(names, j));
  }

  lemma RelativeWordsText(direction: string, name: string)
    ensures Spaced(["--" + direction + "-of", name]) == " --" + direction + "-of " + name
  {
    SpacedTwo("--" + direction + "-of", name);
    assert " " + ("--" + direction + "-of") + " " + name == " --" + direction + "-of " + name;
  }

  lemma {:induction false} ArgsWordsText(args: seq<Arg>, names: seq<string>)
    ensures Spaced(ArgsWords(args, names)) == ArgsText(args, names)
  {
    if |args| > 0 {
      ArgWordsText(args[0], names);
      ArgsWordsText(args[1..], names);
      SpacedAppend(ArgWords(args[0], names), ArgsWords(args[1..], names));
    }
  }

  lemma OutputGroupSpaced(name: string, options: seq<string>)
    ensures Spaced(["--output", name] + options) == " --output " + name + Spaced(options)
  {
    SpacedAppend(["--output", name], options);
    SpacedTwo("--output", name);
    assert " " + "--output" + " " == " --output ";
  }

  lemma GroupWordsText(displays: seq<Display>, plan: seq<seq<Arg>>, idx: nat)
    requires |plan| == |displays| && idx < |displays|
    ensures Spaced(GroupWords(displays, plan, idx)) == GroupText(displays, plan, idx)
  {
    ArgsWordsText(plan[idx], Names(displays));
    OutputGroupSpaced(displays[idx].name, ArgsWords(plan[idx], Names(displays)));
  }

  lemma PlanWordsStep(displays: seq<Display>, plan: seq<seq<Arg>>, k: nat)
    requires |plan| == |displays| && 0 < k <= |displays|
    requires Spaced(PlanWords(displays, plan, k - 1)) == GroupsText(displays, plan, k - 1)
    ensures Spaced(PlanWords(displays, plan, k)) == GroupsText(displays, plan, k)
  {
    GroupWordsText(displays, plan, k - 1);
    SpacedAppend(PlanWords(displays, plan, k - 1), GroupWords(displays, plan, k - 1));
  }

  lemma {:induction false} PlanWordsText(displays: seq<Display>, plan: seq<seq<Arg>>, k: nat)
    requires |plan| == |displays| && k <= |displays|
    ensures Spaced(PlanWords(displays, plan, k)) == GroupsText(displays, plan, k)
  {
    if k > 0 {
      PlanWordsText(displays, plan, k - 1);
      PlanWordsStep(displays, plan, k);
    }
  }

  lemma {:induction false} JoinSpaced(first: string, words: seq<string>)
    ensures Join([first] + words, ' ') == first + Spaced(words)
    decreases |words|
  {
    if |words| == 0 {
      assert [first] + words == [first];
    } else {
      JoinSpaced(words[0], words[1..]);
      assert ([first] + words)[1..] == [words[0]] + words[1..];
      assert [words[0]] + words[1..] == words;
    }
  }

  predicate SpaceFree(s: string) {
    ' ' !in s
  }

  /** The words of every option are free of spaces when the names and the direction are. */
  lemma {:induction false} PlanWordsSpaceFree(displays: seq<Display>, plan: seq<seq<Arg>>, direction: string, k: nat)
    requires |plan| == |displays| && Directed(plan, direction) && k <= |displays|
    requires SpaceFree(direction)
    requires forall i :: 0 <= i < |displays| ==> SpaceFree(displays[i].name)
    ensures forall w :: w in PlanWords(displays, plan, k) ==> SpaceFree(w)
  {
    if k > 0 {
      PlanWordsSpaceFree(displays, plan, direction, k - 1);
      GroupWordsSpaceFree(displays, plan, direction, k - 1);
      PlanWordsSpaceFreeStep(displays, plan, k);
    }
  }

  lemma PlanWordsSpaceFreeStep(displays: seq<Display>, plan: seq<seq<Arg>>, k: nat)
    requires |plan| == |displays| && 0 < k <= |displays|
    requires forall w :: w in PlanWords(displays, plan, k - 1) ==> SpaceFree(w)
    requires forall w :: w in GroupWords(displays, plan, k - 1) ==> SpaceFree(w)
    ensures forall w :: w in PlanWords(displays, plan, k) ==> SpaceFree(w)
  {
    SpaceFreeAppend(PlanWords(displays, plan, k - 1), GroupWords(displays, plan, k - 1));
  }

  lemma GroupWordsSpaceFree(displays: seq<Display>, plan: seq<seq<Arg>>, direction: string, idx: nat)
    requires |plan| == |displays| && Directed(plan, direction) && idx < |displays|
    requires SpaceFree(direction)
    requires forall i :: 0 <= i < |displays| ==> SpaceFree(displays[i].name)
    ensures forall w :: w in GroupWords(displays, plan, idx) ==> SpaceFree(w)
  {
    ArgsWordsFree(plan[idx], Names(displays), direction, SpaceFree);
    SpaceFreeAppend(["--output", displays[idx].name], ArgsWords(plan[idx], Names(displays)));
  }

  lemma SpaceFreeAppend(a: seq<string>, b: seq<string>)
    requires forall w :: w in a ==> SpaceFree(w)
    requires forall w :: w in b ==> SpaceFree(w)
    ensures forall w :: w in a + b ==> SpaceFree(w)
  {
  }

  /** The words of the options satisfy `P` when the option words, the names and
      the empty fallback of `TargetName` do. */
  lemma {:induction false} ArgsWordsFree(args: seq<Arg>, names: seq<string>, direction: string, P: string -> bool)
    requires forall k :: 0 <= k < |args| && args[k].RelativeOf? ==> args[k].direction == direction
    requires P("--primary") && P("--auto") && P("--off") && P("--same-as") && P("--" + direction + "-of")
    requires P("") && forall i :: 0 <= i < |names| ==> P(names[i])
    ensures forall w :: w in ArgsWords(args, names) ==> P(w)
  {
    if |args| > 0 {
      ArgsWordsFree(args[1..], names, direction, P);
    }
  }

  /** The names that follow each `--output` word. */
  function OutputNames(words: seq<string>): seq<string>
  {
    if |words| == 0 then []
    else if words[0] == "--output" && |words| >= 2 then [words[1]] + OutputNames(words[2..])
    else OutputNames(words[1..])
  }

  lemma {:induction false} OutputNamesSkip(a: seq<string>, rest: seq<string>)
    requires forall i :: 0 <= i < |a| ==> a[i] != "--output"
    ensures OutputNames(a + rest) == OutputNames(rest)
  {
    if |a| > 0 {
      assert (a + rest)[0] == a[0];
      assert (a + rest)[1..] == a[1..] + rest;
      OutputNamesSkip(a[1..], rest);
    } else {
      assert a + rest == rest;
    }
  }

  lemma NotOutputWord(direction: string)
    ensures "--" + direction + "-of" != "--output"
  {
    var w := "--" + direction + "-of";
    if |w| == 8 {
      assert w[5] == '-';
    }
  }

  lemma OutputNamesHead(name: string, rest: seq<string>)
    ensures OutputNames(["--output", name] + rest) == [name] + OutputNames(rest)
  {
    assert (["--output", name] + rest)[2..] == rest;
  }

  /** No option word of a group is `--output`. */
  lemma OptionsNotOutput(args: seq<Arg>, names: seq<string>, direction: string)
    requires forall k :: 0 <= k < |args| && args[k].RelativeOf? ==> args[k].direction == direction
    requires forall i :: 0 <= i < |names| ==> names[i] != "--output"
    ensures forall i :: 0 <= i < |ArgsWords(args, names)| ==> ArgsWords(args, names)[i] != "--output"
  {
    var options := ArgsWords(args, names);
    NotOutputWord(direction);
    ArgsWordsFree(args, names, direction, w => w != "--output");
    forall i | 0 <= i < |options| ensures options[i] != "--output" {
      assert options[i] in options;
    }
  }

  /** The `--output` words of one group followed by `rest`. */
  lemma OutputNamesOfGroup(displays: seq<Display>, plan: seq<seq<Arg>>, direction: string, idx: nat, rest: seq<string>)
    requires |plan| == |displays| && Directed(plan, direction) && idx < |displays|
    requires forall i :: 0 <= i < |displays| ==> displays[i].name != "--output"
    ensures OutputNames(GroupWords(displays, plan, idx) + rest) == [displays[idx].name] + OutputNames(rest)
  {
    var options := ArgsWords(plan[idx], Names(displays));
    OptionsNotOutput(plan[idx], Names(displays), direction);
    OutputNamesSkip(options, rest);
    ConcatAssoc(["--output", displays[idx].name], options, rest);
    OutputNamesHead(displays[idx].name, options + rest);
  }

  lemma NamesPrefix(displays: seq<Display>, k: nat)
    requires 0 < k <= |displays|
    ensures Names(displays)[..k] == Names(displays)[..k - 1] + [displays[k - 1].name]
  {
  }

  lemma {:induction false} OutputNamesOfPlan(displays: seq<Display>, plan: seq<seq<Arg>>, direction: string,
                                             k: nat, rest: seq<string>)
    requires |plan| == |displays| && Directed(plan, direction) && k <= |displays|
    requires forall i :: 0 <= i < |displays| ==> displays[i].name != "--output"
    ensures OutputNames(PlanWords(displays, plan, k) + rest) == Names(displays)[..k] + OutputNames(rest)
  {
    if k > 0 {
      var before, group := PlanWords(displays, plan, k - 1), GroupWords(displays, plan, k - 1);
      OutputNamesOfGroup(displays, plan, direction, k - 1, rest);
      OutputNamesOfPlan(displays, plan, direction, k - 1, group + rest);
      ConcatAssoc(before, group, rest);
      NamesPrefix(displays, k);
      ConcatAssoc(Names(displays)[..k - 1], [displays[k - 1].name], OutputNames(rest));
    } else {
      assert PlanWords(displays, plan, k) + rest == rest;
    }
  }

  /** With space-free names and direction, splitting the command text at
      spaces gives back "xrandr" and the words of the groups. */
  lemma SplitCommandText(displays: seq<Display>, plan: seq<seq<Arg>>, direction: string)
    requires |plan| == |displays| && Directed(plan, direction)
    requires SpaceFree(direction)
    requires forall i :: 0 <= i < |displays| ==> SpaceFree(displays[i].name)
    ensures Split("xrandr" + GroupsText(displays, plan, |displays|), ' ')
            == ["xrandr"] + PlanWords(displays, plan, |displays|)
  {
    var words := PlanWords(displays, plan, |displays|);
    PlanWordsText(displays, plan, |displays|);
    JoinSpaced("xrandr", words);
    PlanWordsSpaceFree(displays, plan, direction, |displays|);
    forall i | 0 <= i < |["xrandr"] + words|
      ensures ' ' !in (["xrandr"] + words)[i]
    {
      if i > 0 {
        assert words[i - 1] in words;
      }
    }
    SplitJoin(["xrandr"] + words, ' ');
  }

  /** Split at spaces, the command is "xrandr" followed by the words of the
      groups, and the `--output` words name every display exactly once, in
      list order: one group per display. */
  lemma CommandNamesEveryDisplay(displays: seq<Display>, mode: DisplayMode, extendAll: bool, direction: string)
    requires SpaceFree(direction)
    requires forall i :: 0 <= i < |displays| ==> SpaceFree(displays[i].name) && displays[i].name != "--output"
    ensures Split(Command(displays, mode, extendAll, direction), ' ')
            == ["xrandr"] + CommandWords(displays, mode, extendAll, direction)
    ensures OutputNames(Split(Command(displays, mode, extendAll, direction), ' ')[1..]) == Names(displays)
  {
    var plan := Plan(mode, extendAll, direction, |displays|);
    PlanWellFormed(mode, extendAll, direction, |displays|);
    var words := PlanWords(displays, plan, |displays|);
    SplitCommandText(displays, plan, direction);
    OutputNamesOfPlan(displays, plan, direction, |displays|, []);
    assert words + [] == words;
    assert (["xrandr"] + words)[1..] == words;
  }

  // ---- The EXTERNAL_ONLY fall-through ----------------------------------------

  /** How many power settings (`--auto` or `--off`) a group carries. */
  function PowerSettings(args: seq<Arg>): (c: nat)
    ensures c <= |args|
  {
    if |args| == 0 then 0
    else (if args[0].Auto? || args[0].Off? then 1 else 0) + PowerSettings(args[1..])
  }

  /** As written, the EXTERNAL_ONLY group of the first display carries two power
      settings; with "extend all" it is switched off, switched on again and
      placed next to the last display of the list, which is the first display
      itself when the list has only one. */
  lemma ExternalOnlyFirstDisplayAsWritten(direction: string, n: nat)
    requires n >= 1
    ensures GroupArgs(ExternalOnly, false, direction, n, 0) == [Off, Off]
    ensures GroupArgs(ExternalOnly, true, direction, n, 0) == [Off, Auto, RelativeOf(direction, n - 1)]
    ensures PowerSettings(GroupArgs(ExternalOnly, true, direction, n, 0)) == 2
    ensures PowerSettings(GroupArgs(ExternalOnly, false, direction, n, 0)) == 2
  {
    var r := GroupArgs(ExternalOnly, true, direction, n, 0);
    PowerSettingsUnfold(r);
    PowerSettingsUnfold(r[1..]);
    PowerSettingsUnfold(r[1..][1..]);
    assert r[1..][1..][1..] == [];
    var q := GroupArgs(ExternalOnly, false, direction, n, 0);
    PowerSettingsUnfold(q);
    PowerSettingsUnfold(q[1..]);
    assert q[1..][1..] == [];
  }

  /** The text of that group: the first display is switched off twice, or, with
      "extend all", switched off and then on again next to the last display
      (next to itself when it is the only one). */
  lemma ExternalOnlyFirstDisplayText(displays: seq<Display>, extendAll: bool, direction: string)
    requires |displays| >= 1
    ensures GroupText(displays, Plan(ExternalOnly, extendAll, direction, |displays|), 0)
            == " --output " + displays[0].name + " --off"
               + (if extendAll then " --auto --" + direction + "-of " + displays[|displays| - 1].name
                  else " --off")
  {
    var names := Names(displays);
    var n := |displays|;
    ExternalOnlyFirstDisplayAsWritten(direction, n);
    var secondText := if extendAll then " --auto --" + direction + "-of " + names[n - 1] else " --off";
    ExternalOnlyFirstOptionsText(extendAll, direction, names);
    GroupTextIs(displays, ExternalOnly, extendAll, direction, 0, " --off" + secondText);
    ConcatAssoc(" --output " + displays[0].name, " --off", secondText);
  }

  /** The option text of the EXTERNAL_ONLY first display, in terms of the names. */
  lemma ExternalOnlyFirstOptionsText(extendAll: bool, direction: string, names: seq<string>)
    requires |names| >= 1
    ensures ArgsText([Off] + (if extendAll then [Auto, RelativeOf(direction, |names| - 1)] else [Off]), names)
            == " --off" + (if extendAll then " --auto --" + direction + "-of " + names[|names| - 1] else " --off")
  {
    ArgsTextOne(Off, names);
    if extendAll {
      var second := [Auto, RelativeOf(direction, |names| - 1)];
      ArgsTextAppend([Off], second, names);
      AutoRelativeText(direction, |names| - 1, names);
    } else {
      ArgsTextAppend([Off], [Off], names);
    }
  }

  /** The options with the EXTERNAL_ONLY test for index 1 read as `elif`: the
      first display is only switched off. */
  function IntendedGroupArgs(mode: DisplayMode, extendAll: bool, direction: string, n: nat, idx: nat): (r: seq<Arg>)
    requires idx < n
  {
    match mode
    case Clone => if idx == 0 then [Primary, Auto] else [Auto, SameAs(idx - 1)]
    case InternalOnly => if idx == 0 then [Primary, Auto] else [Off]
    case ExternalOnly =>
      if idx == 0 then [Off]
      else if idx == 1 then [Primary, Auto]
      else if extendAll then [Auto, RelativeOf(direction, idx - 1)]
      else [Off]
    case InternalExtend =>
      if idx == 0 then [Primary, Auto]
      else if idx == 1 then [Auto, RelativeOf(direction, idx - 1)]
      else if extendAll then [Auto, RelativeOf(direction, idx - 1)]
      else [Off]
  }

  lemma PowerSettingsUnfold(args: seq<Arg>)
    requires |args| > 0
    ensures PowerSettings(args) == (if args[0].Auto? || args[0].Off? then 1 else 0) + PowerSettings(args[1..])
  {
  }

  /** Corrected: every group sets the power of its display exactly once, and
      every positional option names an earlier display. */
  lemma IntendedGroupsWellFormed(mode: DisplayMode, extendAll: bool, direction: string, n: nat, idx: nat)
    requires idx < n
    ensures PowerSettings(IntendedGroupArgs(mode, extendAll, direction, n, idx)) == 1
    ensures var r := IntendedGroupArgs(mode, extendAll, direction, n, idx);
            forall k :: 0 <= k < |r| && HasTarget(r[k]) ==> r[k].target < idx
  {
    var r := IntendedGroupArgs(mode, extendAll, direction, n, idx);
    PowerSettingsUnfold(r);
    if |r| == 2 {
      PowerSettingsUnfold(r[1..]);
      assert r[1..][1..] == [];
    } else {
      assert r[1..] == [];
    }
  }

  /** The correction changes nothing but the EXTERNAL_ONLY group of the first display. */
  lemma IntendedDiffersOnlyAtExternalFirst(mode: DisplayMode, extendAll: bool, direction: string, n: nat, idx: nat)
    requires idx < n
    ensures IntendedGroupArgs(mode, extendAll, direction, n, idx) == GroupArgs(mode, extendAll, direction, n, idx)
            <==> !(mode == ExternalOnly && idx == 0)
  {
  }
}
