/**
  Keybinding groups read from the configuration. A group is a JSON object whose
  members map key strings to actions; the member whose raw key is `"__hidden__"`
  holds a nested object of bindings that work but are not shown in the legend.
  The JSON document is abstracted to the parts the group builder looks at, and
  the reading of an action from a JSON value is a parameter of the model.
*/
module Keybindings {
  import opened Wrappers
  import opened Mame

  /** An object member's key: its raw token as written (quotes and escapes included) and its decoded text. */
  datatype JsonKey = JsonKey(raw: string, text: string)

  /** A JSON value: an object with its members in document order, or anything else. */
  datatype JsonValue = Object(members: seq<Member>) | NonObject(raw: string)

  datatype Member = Member(key: JsonKey, value: JsonValue)

  datatype ActionName = ActionName(name: string)

  /** Reads an action from a JSON value; supplied by the action table, which is not part of this model. */
  type ActionParser = JsonValue -> Result<ActionName, string>

  /** Why a group could not be built. */
  datatype GroupError =
    | NotAnObject
    | BadKey(keyError: KeyError)
    | BadAction(message: string)

  datatype Keybinding = Keybinding(key: KeyInput, action: ActionName, visible: bool)

  datatype KeybindingsGroup = KeybindingsGroup(entries: seq<Keybinding>)

  datatype Keybindings = Keybindings(groups: map<string, KeybindingsGroup>)

  datatype KeybindingsContext = KeybindingsContext(currentGroupName: string, nextGroupName: string)

  const MAIN_GROUP: string := "__main__"

  /** The raw token that marks the hidden sub-object, compared before any unescaping. */
  const HIDDEN_KEY_RAW: string := "\"__hidden__\""

  /** The context an editor starts in: both the current and the next group are the main group. */
  function DefaultContext(): (c: KeybindingsContext)
    ensures c.currentGroupName == c.nextGroupName == MAIN_GROUP
  {
    KeybindingsContext(MAIN_GROUP, MAIN_GROUP)
  }

  datatype IterError = MissingGroup(name: string)

  /** The bindings of the context's current group, in order; the next group plays no part. */
  function Iter(kb: Keybindings, ctx: KeybindingsContext): (r: Result<seq<Keybinding>, IterError>)
    ensures r.Err? <==> ctx.currentGroupName !in kb.groups
    ensures r.Err? ==> r.error == MissingGroup(ctx.currentGroupName)
    ensures r.Ok? ==> r.value == kb.groups[ctx.currentGroupName].entries
  {
    if ctx.currentGroupName in kb.groups then Ok(kb.groups[ctx.currentGroupName].entries)
    else Err(MissingGroup(ctx.currentGroupName))
  }

  /** Iteration depends only on the current group's name. */
  lemma IterIgnoresNext(kb: Keybindings, ctx: KeybindingsContext, next: string)
    ensures Iter(kb, ctx.(nextGroupName := next)) == Iter(kb, ctx)
  {
  }

  predicate IsHidden(m: Member)
  {
    m.key.raw == HIDDEN_KEY_RAW
  }

  /** One binding: the key is read before the action, so a bad key is reported first. */
  function BindingOf(m: Member, visible: bool, parseAction: ActionParser): (r: Result<Keybinding, GroupError>)
    ensures r.Ok? ==> r.value.visible == visible
    ensures r.Ok? <==> ParseKeyInput(m.key.text).Ok? && parseAction(m.value).Ok?
    ensures r.Ok? ==> Ok(r.value.key) == ParseKeyInput(m.key.text) && Ok(r.value.action) == parseAction(m.value)
    ensures ParseKeyInput(m.key.text).Err? ==> r == Err(BadKey(ParseKeyInput(m.key.text).error))
  {
    match ParseKeyInput(m.key.text)
    case Err(e) => Err(BadKey(e))
    case Ok(k) =>
      match parseAction(m.value)
      case Err(e) => Err(BadAction(e))
      case Ok(a) => Ok(Keybinding(k, a, visible))
  }

  /** Result of reading a group, or a run of its members. */
  type Entries = Result<seq<Keybinding>, GroupError>

  /** One member read as a single binding, shown in the legend or not. */
  function SingleEntry(m: Member, visible: bool, parseAction: ActionParser): (r: Entries)
    ensures r.Err? <==> BindingOf(m, visible, parseAction).Err?
    ensures r.Ok? ==> r.value == [BindingOf(m, visible, parseAction).value]
    ensures r.Err? ==> r.error == BindingOf(m, visible, parseAction).error
  {
    match BindingOf(m, visible, parseAction)
    case Err(e) => Err(e)
    case Ok(b) => Ok([b])
  }

  /** Results combine left to right, the first error winning. */
  function Then(a: Entries, b: Entries): (r: Entries)
    ensures r.Ok? <==> a.Ok? && b.Ok?
    ensures r.Ok? ==> r.value == a.value + b.value
    ensures a.Err? ==> r == a
    ensures a.Ok? && b.Err? ==> r == b
  {
    match a
    case Err(e) => Err(e)
    case Ok(x) =>
      match b
      case Err(e) => Err(e)
      case Ok(y) => Ok(x + y)
  }

  /**
    Reading a run of members one after the other, each contributing what `step`
    makes of it, and stopping at the first failure. The group object and the
    hidden sub-object are both read this way.
  */
  function Collect(ms: seq<Member>, step: Member -> Entries): Entries
  {
    if ms == [] then Ok([])
    else Then(Collect(ms[..|ms| - 1], step), step(ms[|ms| - 1]))
  }

  /** The step of the hidden sub-object: each member is one invisible binding. */
  function HiddenStep(parseAction: ActionParser): Member -> Entries
  {
    m => SingleEntry(m, false, parseAction)
  }

  /** The bindings of the hidden sub-object, in order and all invisible. */
  function HiddenEntries(hs: seq<Member>, parseAction: ActionParser): Entries
  {
    Collect(hs, HiddenStep(parseAction))
  }

  /** What one member of the group object contributes: a visible binding, or all hidden ones. */
  function MemberEntries(m: Member, parseAction: ActionParser): Entries
  {
    if IsHidden(m) then
      match m.value
      case Object(hs) => HiddenEntries(hs, parseAction)
      case NonObject(_) => Err(NotAnObject)
    else SingleEntry(m, true, parseAction)
  }

  /** The step of the group object: each member contributes its entries. */
  function MemberStep(parseAction: ActionParser): Member -> Entries
  {
    m => MemberEntries(m, parseAction)
  }

  /** The entries of a group object's members, in document order; the first failure wins. */
  function GroupEntries(ms: seq<Member>, parseAction: ActionParser): Entries
  {
    Collect(ms, MemberStep(parseAction))
  }

  /** The group a JSON value denotes. */
  function GroupOf(v: JsonValue, parseAction: ActionParser): Result<KeybindingsGroup, GroupError>
  {
    match v
    case NonObject(_) => Err(NotAnObject)
    case Object(ms) =>
      match GroupEntries(ms, parseAction)
      case Err(e) => Err(e)
      case Ok(es) => Ok(KeybindingsGroup(es))
  }

  /** Joining results is associative. */
  lemma ThenAssoc(a: Entries, b: Entries, c: Entries)
    ensures Then(Then(a, b), c) == Then(a, Then(b, c))
  {
    if a.Ok? && b.Ok? && c.Ok? {
      assert (a.value + b.value) + c.value == a.value + (b.value + c.value);
    }
  }

  /** Adding one member to a run joins what it contributes at the end. */
  lemma CollectSnoc(init: seq<Member>, m: Member, step: Member -> Entries)
    ensures Collect(init + [m], step) == Then(Collect(init, step), step(m))
  {
    assert (init + [m])[..|init + [m]| - 1] == init;
  }

  /** Reading two runs of members is reading each and joining the results. */
  lemma {:induction false} CollectAppend(ms1: seq<Member>, ms2: seq<Member>, step: Member -> Entries)
    ensures Collect(ms1 + ms2, step) == Then(Collect(ms1, step), Collect(ms2, step))
    decreases |ms2|
  {
    if ms2 == [] {
      assert ms1 + ms2 == ms1;
      var a := Collect(ms1, step);
      assert a.Ok? ==> a.value + [] == a.value;
    } else {
      var init := ms2[..|ms2| - 1];
      var last := ms2[|ms2| - 1];
      assert (ms1 + ms2)[..|ms1 + ms2| - 1] == ms1 + init;
      assert (ms1 + ms2)[|ms1 + ms2| - 1] == last;
      CollectAppend(ms1, init, step);
      ThenAssoc(Collect(ms1, step), Collect(init, step), step(last));
    }
  }

  /** Once a prefix of the run fails, the whole run fails with the same error. */
  lemma CollectPrefixErr(ms: seq<Member>, k: nat, step: Member -> Entries)
    requires k <= |ms| && Collect(ms[..k], step).Err?
    ensures Collect(ms, step) == Collect(ms[..k], step)
  {
    assert ms == ms[..k] + ms[k..];
    CollectAppend(ms[..k], ms[k..], step);
  }

  /** The first failing member makes the whole run fail with its error. */
  lemma CollectFirstErr(ms: seq<Member>, k: nat, step: Member -> Entries)
    requires k < |ms| && Collect(ms[..k], step).Ok? && step(ms[k]).Err?
    ensures Collect(ms, step) == step(ms[k])
  {
    CollectSnoc(ms[..k], ms[k], step);
    assert ms[..k] + [ms[k]] == ms[..k + 1];
    CollectPrefixErr(ms, k + 1, step);
  }

  /** A run fails exactly when one of its members fails. */
  lemma {:induction false} CollectErrIff(ms: seq<Member>, step: Member -> Entries)
    ensures Collect(ms, step).Err? <==> exists i :: 0 <= i < |ms| && step(ms[i]).Err?
  {
    if ms != [] {
      var init := ms[..|ms| - 1];
      CollectErrIff(init, step);
      if Collect(init, step).Err? {
        var i :| 0 <= i < |init| && step(init[i]).Err?;
        assert ms[i] == init[i];
      } else if step(ms[|ms| - 1]).Err? {
      } else {
        forall i | 0 <= i < |ms| ensures step(ms[i]).Ok? {
          if i < |init| {
            assert ms[i] == init[i];
          }
        }
      }
    }
  }

  /** A group fails exactly when one of its members fails. */
  lemma GroupEntriesErrIff(ms: seq<Member>, parseAction: ActionParser)
    ensures GroupEntries(ms, parseAction).Err? <==> exists i :: 0 <= i < |ms| && MemberEntries(ms[i], parseAction).Err?
  {
    var step := MemberStep(parseAction);
    CollectErrIff(ms, step);
    assert forall i :: 0 <= i < |ms| ==> step(ms[i]) == MemberEntries(ms[i], parseAction);
  }

  /** The hidden run fails at its first bad member; otherwise it holds one invisible binding per member, in order. */
  lemma HiddenEntriesSpec(hs: seq<Member>, parseAction: ActionParser)
    ensures HiddenEntries(hs, parseAction).Err? <==> exists j :: 0 <= j < |hs| && BindingOf(hs[j], false, parseAction).Err?
    ensures HiddenEntries(hs, parseAction).Ok? ==>
      var es := HiddenEntries(hs, parseAction).value;
      |es| == |hs| && forall j :: 0 <= j < |hs| ==> BindingOf(hs[j], false, parseAction) == Ok(es[j])
  {
    var step := HiddenStep(parseAction);
    assert HiddenEntries(hs, parseAction).Err? <==> exists j :: 0 <= j < |hs| && BindingOf(hs[j], false, parseAction).Err? by {
      CollectErrIff(hs, step);
      assert forall j :: 0 <= j < |hs| ==> (step(hs[j]).Err? <==> BindingOf(hs[j], false, parseAction).Err?);
    }
    if HiddenEntries(hs, parseAction).Ok? {
      HiddenEntriesValues(hs, parseAction);
    }
  }

  /** A successful hidden group holds one binding per member, in order. */
  lemma {:induction false} HiddenEntriesValues(hs: seq<Member>, parseAction: ActionParser)
    requires HiddenEntries(hs, parseAction).Ok?
    ensures var es := HiddenEntries(hs, parseAction).value;
      |es| == |hs| && forall j :: 0 <= j < |hs| ==> BindingOf(hs[j], false, parseAction) == Ok(es[j])
  {
    if hs != [] {
      var init := hs[..|hs| - 1];
      HiddenEntriesValues(init, parseAction);
      var es := HiddenEntries(hs, parseAction).value;
      var b := BindingOf(hs[|hs| - 1], false, parseAction).value;
      assert es == HiddenEntries(init, parseAction).value + [b];
      forall j | 0 <= j < |hs| ensures BindingOf(hs[j], false, parseAction) == Ok(es[j]) {
        if j < |init| {
          assert hs[j] == init[j];
        }
      }
    }
  }

  /** Number of ordinary (not hidden) members, each of which yields one visible binding. */
  function OrdinaryCount(ms: seq<Member>): nat
  {
    if ms == [] then 0
    else OrdinaryCount(ms[..|ms| - 1]) + (if IsHidden(ms[|ms| - 1]) then 0 else 1)
  }

  /** Number of bindings the hidden members hold. */
  function HiddenCount(ms: seq<Member>): nat
  {
    if ms == [] then 0
    else
      var m := ms[|ms| - 1];
      HiddenCount(ms[..|ms| - 1]) + (if IsHidden(m) && m.value.Object? then |m.value.members| else 0)
  }

  function VisibleCount(es: seq<Keybinding>): nat
  {
    if es == [] then 0
    else VisibleCount(es[..|es| - 1]) + (if es[|es| - 1].visible then 1 else 0)
  }

  lemma {:induction false} VisibleCountAppend(a: seq<Keybinding>, b: seq<Keybinding>)
    ensures VisibleCount(a + b) == VisibleCount(a) + VisibleCount(b)
    decreases |b|
  {
    if b == [] {
      assert a + b == a;
    } else {
      assert (a + b)[..|a + b| - 1] == a + b[..|b| - 1];
      VisibleCountAppend(a, b[..|b| - 1]);
    }
  }

  lemma {:induction false} HiddenEntriesInvisible(hs: seq<Member>, parseAction: ActionParser)
    requires HiddenEntries(hs, parseAction).Ok?
    ensures VisibleCount(HiddenEntries(hs, parseAction).value) == 0
    ensures |HiddenEntries(hs, parseAction).value| == |hs|
  {
    if hs != [] {
      var init := hs[..|hs| - 1];
      HiddenEntriesInvisible(init, parseAction);
      var es := HiddenEntries(init, parseAction).value;
      var b := BindingOf(hs[|hs| - 1], false, parseAction).value;
      assert (es + [b])[..|es + [b]| - 1] == es;
    }
  }

  /**
    A built group holds one visible binding per ordinary member and one
    invisible binding per member of the hidden sub-object, and nothing else.
  */
  lemma {:induction false} GroupEntriesCounts(ms: seq<Member>, parseAction: ActionParser)
    requires GroupEntries(ms, parseAction).Ok?
    ensures |GroupEntries(ms, parseAction).value| == OrdinaryCount(ms) + HiddenCount(ms)
    ensures VisibleCount(GroupEntries(ms, parseAction).value) == OrdinaryCount(ms)
  {
    if ms != [] {
      var init := ms[..|ms| - 1];
      var m := ms[|ms| - 1];
      GroupEntriesCounts(init, parseAction);
      var es := GroupEntries(init, parseAction).value;
      var more := MemberEntries(m, parseAction).value;
      VisibleCountAppend(es, more);
      if IsHidden(m) {
        HiddenEntriesInvisible(m.value.members, parseAction);
      } else {
        assert [more[0]][..0] == [];
      }
    }
  }

  /** A member that reads successfully extends the run's entries by what it contributes. */
  lemma CollectOkStep(ms: seq<Member>, i: nat, step: Member -> Entries, acc: seq<Keybinding>, more: seq<Keybinding>)
    requires i < |ms| && Collect(ms[..i], step) == Ok(acc) && step(ms[i]) == Ok(more)
    ensures Collect(ms[..i + 1], step) == Ok(acc + more)
  {
    CollectSnoc(ms[..i], ms[i], step);
    assert ms[..i] + [ms[i]] == ms[..i + 1];
  }

  /** The three outcomes of reading one binding, in the order the reader tries key and action. */
  lemma SingleEntryOutcome(m: Member, visible: bool, parseAction: ActionParser)
    ensures ParseKeyInput(m.key.text).Err? ==>
      SingleEntry(m, visible, parseAction) == Err(BadKey(ParseKeyInput(m.key.text).error))
    ensures ParseKeyInput(m.key.text).Ok? && parseAction(m.value).Err? ==>
      SingleEntry(m, visible, parseAction) == Err(BadAction(parseAction(m.value).error))
    ensures ParseKeyInput(m.key.text).Ok? && parseAction(m.value).Ok? ==>
      SingleEntry(m, visible, parseAction) == Ok([Keybinding(ParseKeyInput(m.key.text).value, parseAction(m.value).value, visible)])
  {
  }

  /** The inner loop of the group builder: the hidden sub-object's bindings, or the first error among them. */
  method BuildHidden(hs: seq<Member>, parseAction: ActionParser) returns (r: Entries)
    ensures r == HiddenEntries(hs, parseAction)
  {
    ghost var step := HiddenStep(parseAction);
    var entries: seq<Keybinding> := [];
    var j := 0;
    while j < |hs|
      invariant 0 <= j <= |hs|
      invariant Collect(hs[..j], step) == Ok(entries)
    {
      SingleEntryOutcome(hs[j], false, parseAction);
      assert step(hs[j]) == SingleEntry(hs[j], false, parseAction);
      var key := ParseKeyInput(hs[j].key.text);
      if key.Err? {
        CollectFirstErr(hs, j, step);
        return Err(BadKey(key.error));
      }
      var action := parseAction(hs[j].value);
      if action.Err? {
        CollectFirstErr(hs, j, step);
        return Err(BadAction(action.error));
      }
      var b := Keybinding(key.value, action.value, false);
      CollectOkStep(hs, j, step, entries, [b]);
      entries := entries + [b];
      j := j + 1;
    }
    assert hs[..j] == hs;
    return Ok(entries);
  }

  /**
    Builds a group the way the configuration reader does: walk the members,
    expand the hidden sub-object in place, stop at the first error.
  */
  method BuildGroup(value: JsonValue, parseAction: ActionParser) returns (r: Result<KeybindingsGroup, GroupError>)
    ensures r == GroupOf(value, parseAction)
  {
    if value.NonObject? {
      return Err(NotAnObject);
    }
    var ms := value.members;
    ghost var step := MemberStep(parseAction);
    var entries: seq<Keybinding> := [];
    var i := 0;
    while i < |ms|
      invariant 0 <= i <= |ms|
      invariant Collect(ms[..i], step) == Ok(entries)
    {
      var m := ms[i];
      assert step(m) == MemberEntries(m, parseAction);
      if IsHidden(m) {
        if m.value.NonObject? {
          CollectFirstErr(ms, i, step);
          return Err(NotAnObject);
        }
        var more := BuildHidden(m.value.members, parseAction);
        if more.Err? {
          CollectFirstErr(ms, i, step);
          return Err(more.error);
        }
        CollectOkStep(ms, i, step, entries, more.value);
        entries := entries + more.value;
      } else {
        SingleEntryOutcome(m, true, parseAction);
        var key := ParseKeyInput(m.key.text);
        if key.Err? {
          CollectFirstErr(ms, i, step);
          return Err(BadKey(key.error));
        }
        var action := parseAction(m.value);
        if action.Err? {
          CollectFirstErr(ms, i, step);
          return Err(BadAction(action.error));
        }
        var b := Keybinding(key.value, action.value, true);
        CollectOkStep(ms, i, step, entries, [b]);
        entries := entries + [b];
      }
      i := i + 1;
    }
    assert ms[..i] == ms;
    return Ok(KeybindingsGroup(entries));
  }
}
