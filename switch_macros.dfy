/// The `fcase`/`bcase`/`fdefault`/`bdefault` switch macros: what they expand
/// to, and what a switch written with them does when it runs.
///
/// A switch body is modelled as the flat list of what C sees after
/// preprocessing: `break;` statements, `case v:` and `default:` labels, and the
/// arms' own statements, each standing for one arm body by name.
module SwitchMacros {

  datatype Option<T> = None | Some(value: T)

  /// One item of a preprocessed switch body.
  datatype Stmt = Break | Case(value: int) | Default | Do(action: string)
  {
    predicate IsLabel() { Case? || Default? }
  }

  /// An argument of `_fcase_selector`: a value the user passed to `fcase`, or
  /// one of the macro names `_fcase_1` … `_fcase_7` that `fcase` appends.
  datatype Arg = Value(v: int) | MacroName(arity: nat)

  /// One `case v` label per value, in the given order.
  function CaseLabels(vs: seq<int>): (r: seq<Stmt>)
    ensures |r| == |vs|
  {
    if vs == [] then [] else [Case(vs[0])] + CaseLabels(vs[1..])
  }

  // ---------------------------------------------------------------------------
  // Expansion

  /// `_fcase_k(args)` for `k` in 1..7: `_fcase_1(x)` is `case x`, and
  /// `_fcase_k(x, rest)` is `case x:` followed by `_fcase_{k-1}(rest)`. With an
  /// argument count that does not fit the chain the text is not a run of `case`
  /// labels, and the compiler rejects it (None).
  function FcaseN(k: nat, args: seq<int>): Option<seq<Stmt>>
    decreases k
  {
    if !(1 <= k <= 7) || args == [] then None
    else if k == 1 then (if |args| == 1 then Some([Case(args[0])]) else None)
    else match FcaseN(k - 1, args[1..])
      case None => None
      case Some(tail) => Some([Case(args[0])] + tail)
  }

  /// What `fcase(first, rest...)` hands to `_fcase_selector`: its own values,
  /// then the macro names from `_fcase_7` down to `_fcase_1`.
  function SelectorArgs(first: int, rest: seq<int>): seq<Arg>
  {
    [Value(first)] + Values(rest)
      + [MacroName(7), MacroName(6), MacroName(5), MacroName(4), MacroName(3), MacroName(2), MacroName(1)]
  }

  /// The values passed to `fcase`, as selector arguments.
  function Values(vs: seq<int>): (r: seq<Arg>)
    ensures |r| == |vs|
  {
    if vs == [] then [] else [Value(vs[0])] + Values(vs[1..])
  }

  /// `_fcase_selector(arg1, …, arg7, macroname, ...)`: the eighth argument.
  function Selector(args: seq<Arg>): Arg
    requires |args| >= 8
  {
    args[7]
  }

  /// `fcase(first, rest...)`: the macro `_fcase_selector` picks, applied to the
  /// values. With 8 or more values the selector returns the eighth value, so the
  /// text is `v8(v1, …, vn)` rather than a `case` label, and the compiler
  /// rejects it (None).
  function Fcase(first: int, rest: seq<int>): Option<seq<Stmt>>
  {
    match Selector(SelectorArgs(first, rest))
    case MacroName(k) => FcaseN(k, [first] + rest)
    case Value(_) => None
  }

  /// `bcase(first, rest...)`: `break;` then `fcase(first, rest...)`.
  function Bcase(first: int, rest: seq<int>): Option<seq<Stmt>>
  {
    match Fcase(first, rest)
    case None => None
    case Some(labels) => Some([Break] + labels)
  }

  /// `fdefault`: `default`.
  const Fdefault: seq<Stmt> := [Default]

  /// `bdefault`: `break; fdefault`.
  const Bdefault: seq<Stmt> := [Break] + Fdefault

  // ---------------------------------------------------------------------------
  // Switches written with the macros

  /// The macro an arm starts with.
  datatype Head = BCase(first: int, rest: seq<int>) | FCase(first: int, rest: seq<int>) | BDefault | FDefault
  {
    /// The arm is written with a (b)reaking macro.
    predicate Breaks() { BCase? || BDefault? }

    /// The arm's values include `x`.
    predicate Matches(x: int) { (BCase? || FCase?) && (x == first || x in rest) }

    /// The arm carries the label `t` (a `case x` or `default`).
    predicate Carries(t: Stmt)
    {
      match t
      case Case(x) => Matches(x)
      case Default => BDefault? || FDefault?
      case _ => false
    }

    /// The same arm written with the fall-through macro.
    function WithoutBreak(): Head
    {
      match this
      case BCase(f, r) => FCase(f, r)
      case BDefault => FDefault
      case _ => this
    }
  }

  /// An arm: its macro and its body (named by the action it performs).
  datatype Arm = Arm(head: Head, action: string)

  /// What the arm's macro expands to.
  function ExpandHead(h: Head): Option<seq<Stmt>>
  {
    match h
    case BCase(f, r) => Bcase(f, r)
    case FCase(f, r) => Fcase(f, r)
    case BDefault => Some(Bdefault)
    case FDefault => Some(Fdefault)
  }

  /// An arm's expansion: its macro's labels, then its body.
  function ExpandArm(a: Arm): Option<seq<Stmt>>
  {
    match ExpandHead(a.head)
    case None => None
    case Some(labels) => Some(labels + [Do(a.action)])
  }

  /// The preprocessed body of `switch (x) { <arms> }`.
  function ExpandSwitch(arms: seq<Arm>): Option<seq<Stmt>>
  {
    if arms == [] then Some([])
    else
      var head := ExpandArm(arms[0]);
      var tail := ExpandSwitch(arms[1..]);
      if head.Some? && tail.Some? then Some(head.value + tail.value) else None
  }

  // ---------------------------------------------------------------------------
  // C switch semantics on a preprocessed body

  /// Index of the first occurrence of `t` in `body`.
  function FirstIndex(body: seq<Stmt>, t: Stmt): (r: Option<nat>)
    ensures r.Some? ==> r.value < |body| && body[r.value] == t
    ensures r.Some? ==> forall j :: 0 <= j < r.value ==> body[j] != t
    ensures r.None? ==> t !in body
  {
    if body == [] then None
    else if body[0] == t then Some(0)
    else match FirstIndex(body[1..], t)
      case None => None
      case Some(i) => Some(i + 1)
  }

  /// Running from index `i`: labels are passed over, each body runs, and the
  /// first `break;` or the end of the switch leaves it.
  function RunFrom(body: seq<Stmt>, i: nat): seq<string>
    decreases |body| - i
  {
    if i >= |body| then []
    else match body[i]
      case Break => []
      case Do(a) => [a] + RunFrom(body, i + 1)
      case _ => RunFrom(body, i + 1)
  }

  /// `switch (x)`: jump to `case x`, else to `default`, else past the switch.
  function Execute(body: seq<Stmt>, x: int): seq<string>
  {
    match FirstIndex(body, Case(x))
    case Some(i) => RunFrom(body, i)
    case None =>
      match FirstIndex(body, Default)
      case Some(i) => RunFrom(body, i)
      case None => []
  }

  // ---------------------------------------------------------------------------
  // The arm-level meaning the macros are designed to have

  /// Index of the first arm carrying the label `t`.
  function FirstArm(arms: seq<Arm>, t: Stmt): (r: Option<nat>)
    ensures r.Some? ==> r.value < |arms| && arms[r.value].head.Carries(t)
    ensures r.Some? ==> forall j :: 0 <= j < r.value ==> !arms[j].head.Carries(t)
    ensures r.None? ==> forall j :: 0 <= j < |arms| ==> !arms[j].head.Carries(t)
  {
    if arms == [] then None
    else if arms[0].head.Carries(t) then Some(0)
    else match FirstArm(arms[1..], t)
      case None => None
      case Some(k) => Some(k + 1)
  }

  /// The arm `switch (x)` enters: the first arm listing `x`, else the default arm.
  function Entry(arms: seq<Arm>, x: int): Option<nat>
  {
    match FirstArm(arms, Case(x))
    case Some(k) => Some(k)
    case None => FirstArm(arms, Default)
  }

  /// Entering the first arm: its body runs, then control falls into the next
  /// arm exactly when that arm is written with `fcase`/`fdefault`.
  function Chain(arms: seq<Arm>): seq<string>
    requires arms != []
  {
    [arms[0].action] + (if |arms| >= 2 && !arms[1].head.Breaks() then Chain(arms[1..]) else [])
  }

  /// What `switch (x)` runs, read off the arms: the chain from the entered arm.
  function ArmRun(arms: seq<Arm>, x: int): seq<string>
  {
    match Entry(arms, x)
    case Some(k) => Chain(arms[k..])
    case None => []
  }

  /// The arms' bodies, in order.
  function Actions(arms: seq<Arm>): (r: seq<string>)
    ensures |r| == |arms|
  {
    if arms == [] then [] else [arms[0].action] + Actions(arms[1..])
  }

  // ---------------------------------------------------------------------------
  // Expansion lemmas

  /// `_fcase_k` expands exactly when it is given `k` values, to one label each.
  lemma {:induction false} FcaseNExpansion(k: nat, args: seq<int>)
    ensures FcaseN(k, args) == if 1 <= k <= 7 && |args| == k then Some(CaseLabels(args)) else None
    decreases k
  {
    if 1 <= k <= 7 && args != [] {
      if k == 1 {
        if |args| == 1 {
          assert CaseLabels(args) == [Case(args[0])];
        }
      } else {
        FcaseNExpansion(k - 1, args[1..]);
        if |args| == k {
          assert CaseLabels(args) == [Case(args[0])] + CaseLabels(args[1..]);
        }
      }
    }
  }

  /// The `i`-th selector argument made from the values is the `i`-th value.
  lemma {:induction false} ValuesAt(vs: seq<int>, i: nat)
    requires i < |vs|
    ensures Values(vs)[i] == Value(vs[i])
    decreases i
  {
    if i > 0 {
      ValuesAt(vs[1..], i - 1);
    }
  }

  /// `_fcase_selector` picks `_fcase_n` for `n` values (n <= 7), and otherwise
  /// the eighth value.
  lemma {:induction false} SelectorPicksArity(first: int, rest: seq<int>)
    ensures Selector(SelectorArgs(first, rest)) ==
      if |rest| <= 6 then MacroName(|rest| + 1) else Value(rest[6])
  {
    var args := SelectorArgs(first, rest);
    if |rest| <= 6 {
      assert args[7] == MacroName(7 - (6 - |rest|));
    } else {
      ValuesAt(rest, 6);
      assert args[7] == Values(rest)[6];
    }
  }

  /// `fcase(v1, …, vn)` expands exactly for 1 <= n <= 7, to `n` case labels
  /// in the given order.
  lemma {:induction false} FcaseExpansion(first: int, rest: seq<int>)
    ensures Fcase(first, rest).Some? <==> |rest| <= 6
    ensures |rest| <= 6 ==> Fcase(first, rest) == Some(CaseLabels([first] + rest))
  {
    SelectorPicksArity(first, rest);
    if |rest| <= 6 {
      FcaseNExpansion(|rest| + 1, [first] + rest);
    }
  }

  /// `bcase(v1, …, vn)` is `break;` then the `n` labels of `fcase(v1, …, vn)`.
  lemma {:induction false} BcaseExpansion(first: int, rest: seq<int>)
    ensures Bcase(first, rest).Some? <==> |rest| <= 6
    ensures |rest| <= 6 ==> Bcase(first, rest) == Some([Break] + CaseLabels([first] + rest))
  {
    FcaseExpansion(first, rest);
  }

  /// The labels of `CaseLabels(vs)` are `case` labels, and carry exactly the
  /// values in `vs`.
  lemma {:induction false} CaseLabelsShape(vs: seq<int>, t: Stmt)
    ensures forall k :: 0 <= k < |vs| ==> CaseLabels(vs)[k].Case?
    ensures t in CaseLabels(vs) <==> t.Case? && t.value in vs
  {
    if vs != [] {
      CaseLabelsShape(vs[1..], t);
      assert vs == [vs[0]] + vs[1..];
    }
  }

  /// What an arm's macro expands to: a leading `break;` exactly for the
  /// breaking macros, then labels only, carrying exactly the labels the arm's
  /// head promises.
  lemma {:induction false} HeadShape(h: Head, t: Stmt)
    requires ExpandHead(h).Some?
    requires t.IsLabel()
    ensures var e := ExpandHead(h).value;
      && |e| >= 1
      && (e[0] == Break <==> h.Breaks())
      && (h.Breaks() ==> |e| >= 2)
      && (forall k :: 0 < k < |e| ==> e[k].IsLabel())
      && (!h.Breaks() ==> e[0].IsLabel())
      && (t in e <==> h.Carries(t))
  {
    match h
    case BCase(f, r) =>
      BcaseExpansion(f, r);
      CaseLabelsShape([f] + r, t);
    case FCase(f, r) =>
      FcaseExpansion(f, r);
      CaseLabelsShape([f] + r, t);
    case BDefault =>
    case FDefault =>
  }

  /// A switch expands exactly when every `fcase`/`bcase` has at most 7 values.
  lemma {:induction false} ExpandSwitchDefined(arms: seq<Arm>)
    ensures ExpandSwitch(arms).Some? <==>
      forall k :: 0 <= k < |arms| ==> ExpandHead(arms[k].head).Some?
  {
    if arms != [] {
      ExpandSwitchDefined(arms[1..]);
      assert forall k :: 1 <= k < |arms| ==> arms[k] == arms[1..][k - 1];
    }
  }

  /// The heads whose expansion exists are those with at most 7 values.
  lemma {:induction false} HeadDefined(h: Head)
    ensures ExpandHead(h).Some? <==> (h.BCase? || h.FCase? ==> |h.rest| <= 6)
  {
    match h
    case BCase(f, r) => BcaseExpansion(f, r);
    case FCase(f, r) => FcaseExpansion(f, r);
    case _ =>
  }

  /// A non-empty switch expands to its first arm's labels and body, then the
  /// expansion of the remaining arms.
  lemma {:induction false} SwitchCons(arms: seq<Arm>)
    requires arms != []
    requires ExpandSwitch(arms).Some?
    ensures ExpandHead(arms[0].head).Some? && ExpandSwitch(arms[1..]).Some?
    ensures ExpandSwitch(arms).value ==
      ExpandHead(arms[0].head).value + ([Do(arms[0].action)] + ExpandSwitch(arms[1..]).value)
  {
  }

  /// Putting an arm in front of a switch puts its labels and body in front of
  /// the switch's expansion.
  lemma {:induction false} SwitchPrepend(arm: Arm, arms: seq<Arm>)
    requires ExpandHead(arm.head).Some? && ExpandSwitch(arms).Some?
    ensures ExpandSwitch([arm] + arms) ==
      Some(ExpandHead(arm.head).value + ([Do(arm.action)] + ExpandSwitch(arms).value))
  {
    var whole := [arm] + arms;
    assert whole[0] == arm && whole[1..] == arms;
    var labels := ExpandHead(arm.head).value;
    var rest := ExpandSwitch(arms).value;
    assert ExpandSwitch(whole) == Some(ExpandArm(arm).value + rest);
    assert (labels + [Do(arm.action)]) + rest == labels + ([Do(arm.action)] + rest);
  }

  /// A breaking macro is `break;` followed by its fall-through counterpart.
  lemma {:induction false} BreakingHead(h: Head)
    requires h.Breaks()
    ensures ExpandHead(h).Some? <==> ExpandHead(h.WithoutBreak()).Some?
    ensures ExpandHead(h).Some? ==> ExpandHead(h).value == [Break] + ExpandHead(h.WithoutBreak()).value
  {
  }

  // ---------------------------------------------------------------------------
  // Execution lemmas

  /// The first occurrence is the one with no earlier occurrence.
  lemma {:induction false} FirstIndexAt(body: seq<Stmt>, t: Stmt, i: nat)
    requires i < |body| && body[i] == t
    requires forall j :: 0 <= j < i ==> body[j] != t
    ensures FirstIndex(body, t) == Some(i)
  {
  }

  /// A `t` in the prefix is found there.
  lemma {:induction false} FirstIndexInPrefix(a: seq<Stmt>, b: seq<Stmt>, t: Stmt)
    requires t in a
    ensures FirstIndex(a + b, t) == FirstIndex(a, t)
  {
    var i := FirstIndex(a, t).value;
    assert (a + b)[i] == t;
    assert forall j :: 0 <= j < i ==> (a + b)[j] == a[j];
    FirstIndexAt(a + b, t, i);
  }

  /// Past a prefix without `t`, the first `t` is the first `t` of the rest,
  /// shifted by the prefix's length.
  lemma {:induction false} FirstIndexPastPrefix(a: seq<Stmt>, b: seq<Stmt>, t: Stmt)
    requires t !in a
    ensures FirstIndex(a + b, t).Some? <==> FirstIndex(b, t).Some?
    ensures FirstIndex(b, t).Some? ==> FirstIndex(a + b, t).value == |a| + FirstIndex(b, t).value
  {
    if FirstIndex(b, t).Some? {
      var i := FirstIndex(b, t).value;
      assert (a + b)[|a| + i] == t;
      forall j | 0 <= j < |a| + i
        ensures (a + b)[j] != t
      {
        if j < |a| {
          assert (a + b)[j] == a[j];
        } else {
          assert (a + b)[j] == b[j - |a|];
        }
      }
      FirstIndexAt(a + b, t, |a| + i);
    } else {
      assert t !in a + b;
    }
  }

  /// Running past the end of `a` continues in `b`.
  lemma {:induction false} RunFromShift(a: seq<Stmt>, b: seq<Stmt>, i: nat)
    ensures RunFrom(a + b, |a| + i) == RunFrom(b, i)
    decreases |b| - i
  {
    if i < |b| {
      assert (a + b)[|a| + i] == b[i];
      RunFromShift(a, b, i + 1);
    }
  }

  /// Looking for `t` past a prefix that does not contain it finds the first
  /// `t` after the prefix, and running from there is the same.
  lemma {:induction false} SkipPast(first: seq<Stmt>, rest: seq<Stmt>, t: Stmt)
    requires t !in first
    ensures FirstIndex(first + rest, t).Some? <==> FirstIndex(rest, t).Some?
    ensures FirstIndex(rest, t).Some? ==>
      RunFrom(first + rest, FirstIndex(first + rest, t).value) == RunFrom(rest, FirstIndex(rest, t).value)
  {
    FirstIndexPastPrefix(first, rest, t);
    if FirstIndex(rest, t).Some? {
      RunFromShift(first, rest, FirstIndex(rest, t).value);
    }
  }

  /// Labels are passed over.
  lemma {:induction false} RunFromLabels(a: seq<Stmt>, b: seq<Stmt>, j: nat)
    requires j <= |a|
    requires forall k :: j <= k < |a| ==> a[k].IsLabel()
    ensures RunFrom(a + b, j) == RunFrom(b, 0)
    decreases |a| - j
  {
    if j == |a| {
      RunFromShift(a, b, 0);
    } else {
      assert (a + b)[j] == a[j];
      RunFromLabels(a, b, j + 1);
    }
  }

  /// Entering an arm at one of its labels runs its body, then whatever running
  /// the following arms from their start gives.
  lemma {:induction false} RunFromArmBody(arms: seq<Arm>, j: nat)
    requires arms != [] && ExpandSwitch(arms).Some?
    requires ExpandHead(arms[0].head).Some?
    requires j < |ExpandHead(arms[0].head).value|
    requires ExpandHead(arms[0].head).value[j].IsLabel()
    ensures RunFrom(ExpandSwitch(arms).value, j) ==
      [arms[0].action] + RunFrom(ExpandSwitch(arms[1..]).value, 0)
  {
    var labels := ExpandHead(arms[0].head).value;
    var rest := ExpandSwitch(arms[1..]).value;
    var act := arms[0].action;
    SwitchCons(arms);
    HeadShape(arms[0].head, Default);
    RunFromLabels(labels, [Do(act)] + rest, j);
    RunFromShift([Do(act)], rest, 0);
    assert ([Do(act)] + rest)[0] == Do(act);
  }

  /// Running a switch from its start: nothing when its first arm begins with
  /// `break;`, else that arm's fall-through chain.
  lemma {:induction false} RunFromStart(arms: seq<Arm>)
    requires ExpandSwitch(arms).Some?
    ensures RunFrom(ExpandSwitch(arms).value, 0) ==
      if arms != [] && !arms[0].head.Breaks() then Chain(arms) else []
    decreases |arms|
  {
    if arms != [] {
      SwitchCons(arms);
      HeadShape(arms[0].head, Default);
      if !arms[0].head.Breaks() {
        RunFromArm(arms, 0);
      }
    }
  }

  /// Entering the first arm at one of its labels runs that arm's fall-through
  /// chain.
  lemma {:induction false} RunFromArm(arms: seq<Arm>, j: nat)
    requires arms != [] && ExpandSwitch(arms).Some?
    requires ExpandHead(arms[0].head).Some?
    requires j < |ExpandHead(arms[0].head).value|
    requires ExpandHead(arms[0].head).value[j].IsLabel()
    ensures RunFrom(ExpandSwitch(arms).value, j) == Chain(arms)
    decreases |arms|, 0
  {
    RunFromArmBody(arms, j);
    SwitchCons(arms);
    RunFromStart(arms[1..]);
    if |arms| >= 2 {
      assert arms[1..][0] == arms[1];
    }
  }

  /// When the first arm does not carry the label `t`, the first `t` of the
  /// expansion is the first `t` of the remaining arms' expansion, and running
  /// from it does the same.
  lemma {:induction false} LabelLater(arms: seq<Arm>, t: Stmt)
    requires arms != [] && ExpandSwitch(arms).Some?
    requires t.IsLabel() && !arms[0].head.Carries(t)
    ensures ExpandSwitch(arms[1..]).Some?
    ensures FirstIndex(ExpandSwitch(arms).value, t).Some? <==>
      FirstIndex(ExpandSwitch(arms[1..]).value, t).Some?
    ensures FirstIndex(ExpandSwitch(arms[1..]).value, t).Some? ==>
      RunFrom(ExpandSwitch(arms).value, FirstIndex(ExpandSwitch(arms).value, t).value) ==
      RunFrom(ExpandSwitch(arms[1..]).value, FirstIndex(ExpandSwitch(arms[1..]).value, t).value)
  {
    SwitchCons(arms);
    var labels := ExpandHead(arms[0].head).value;
    var first := labels + [Do(arms[0].action)];
    var rest := ExpandSwitch(arms[1..]).value;
    HeadShape(arms[0].head, t);
    assert t !in first;
    assert ExpandSwitch(arms).value == first + rest;
    SkipPast(first, rest, t);
  }

  /// When the first arm carries the label `t`, the first `t` of the expansion
  /// is among that arm's labels, and running from it gives the arm's chain.
  lemma {:induction false} LabelHere(arms: seq<Arm>, t: Stmt)
    requires arms != [] && ExpandSwitch(arms).Some?
    requires t.IsLabel() && arms[0].head.Carries(t)
    ensures FirstIndex(ExpandSwitch(arms).value, t).Some?
    ensures RunFrom(ExpandSwitch(arms).value, FirstIndex(ExpandSwitch(arms).value, t).value) == Chain(arms)
  {
    SwitchCons(arms);
    var labels := ExpandHead(arms[0].head).value;
    var rest := [Do(arms[0].action)] + ExpandSwitch(arms[1..]).value;
    HeadShape(arms[0].head, t);
    FirstIndexInPrefix(labels, rest, t);
    var j := FirstIndex(labels, t).value;
    RunFromArm(arms, j);
  }

  /// The first label `t` in the expansion lies in the first arm carrying `t`,
  /// and running from it gives that arm's fall-through chain.
  lemma {:induction false} LabelEntry(arms: seq<Arm>, t: Stmt)
    requires ExpandSwitch(arms).Some?
    requires t.IsLabel()
    ensures FirstIndex(ExpandSwitch(arms).value, t).Some? <==> FirstArm(arms, t).Some?
    ensures FirstArm(arms, t).Some? ==>
      RunFrom(ExpandSwitch(arms).value, FirstIndex(ExpandSwitch(arms).value, t).value)
        == Chain(arms[FirstArm(arms, t).value..])
    decreases |arms|
  {
    if arms != [] {
      if arms[0].head.Carries(t) {
        LabelHere(arms, t);
        assert arms[0..] == arms;
      } else {
        LabelLater(arms, t);
        LabelEntry(arms[1..], t);
        match FirstArm(arms[1..], t)
        case None =>
          assert FirstArm(arms, t).None?;
        case Some(k) =>
          assert FirstArm(arms, t) == Some(k + 1);
          assert arms[k + 1..] == arms[1..][k..];
      }
    }
  }

  /// Correctness of the macros: running the preprocessed switch is the arm
  /// semantics — enter the first arm listing `x` (else the default arm), run
  /// its body and fall into following arms while they are `fcase`/`fdefault`.
  lemma {:induction false} ExecuteIsArmRun(arms: seq<Arm>, x: int)
    requires ExpandSwitch(arms).Some?
    ensures Execute(ExpandSwitch(arms).value, x) == ArmRun(arms, x)
  {
    LabelEntry(arms, Case(x));
    LabelEntry(arms, Default);
  }

  /// The fall-through chain from the first arm runs arms `0 .. e-1`, where `e`
  /// is the first later arm written with `bcase`/`bdefault` (or the end).
  lemma {:induction false} ChainShape(arms: seq<Arm>, e: nat)
    requires 1 <= e <= |arms|
    requires forall j :: 1 <= j < e ==> !arms[j].head.Breaks()
    requires e == |arms| || arms[e].head.Breaks()
    ensures Chain(arms) == Actions(arms[..e])
    decreases e
  {
    if e > 1 {
      ChainShape(arms[1..], e - 1);
      assert arms[1..][..e - 1] == arms[1..e];
    }
    assert arms[..e][1..] == arms[1..e];
  }

  /// Fall-through rule at the level of the C switch: from the arm `k` that `x`
  /// enters, the bodies of arms `k .. e-1` run, where arm `e` is the first
  /// later arm written with a breaking macro. So an `fcase`/`fdefault` arm is
  /// entered from the arm before it, and a `bcase`/`bdefault` arm never is.
  lemma {:induction false} FallThrough(arms: seq<Arm>, x: int, k: nat, e: nat)
    requires ExpandSwitch(arms).Some?
    requires Entry(arms, x) == Some(k)
    requires k < e <= |arms|
    requires forall j :: k < j < e ==> !arms[j].head.Breaks()
    requires e == |arms| || arms[e].head.Breaks()
    ensures Execute(ExpandSwitch(arms).value, x) == Actions(arms[k..e])
  {
    ExecuteIsArmRun(arms, x);
    ChainShape(arms[k..], e - k);
    assert arms[k..][..e - k] == arms[k..e];
  }

  /// No arm runs when `x` is listed nowhere and there is no default arm.
  lemma {:induction false} NoEntryRunsNothing(arms: seq<Arm>, x: int)
    requires ExpandSwitch(arms).Some?
    requires forall j :: 0 <= j < |arms| ==> !arms[j].head.Matches(x)
    requires forall j :: 0 <= j < |arms| ==> !(arms[j].head.BDefault? || arms[j].head.FDefault?)
    ensures Execute(ExpandSwitch(arms).value, x) == []
  {
    ExecuteIsArmRun(arms, x);
    assert FirstArm(arms, Case(x)).None?;
    assert FirstArm(arms, Default).None?;
  }

  /// A `break;` in front of a body changes nothing a switch can run.
  lemma {:induction false} BreakFirstIgnored(body: seq<Stmt>, x: int)
    ensures Execute([Break] + body, x) == Execute(body, x)
  {
    SkipPast([Break], body, Case(x));
    SkipPast([Break], body, Default);
  }

  /// The same switch with its first arm written with `fcase`/`fdefault`.
  function WithPlainFirst(arms: seq<Arm>): seq<Arm>
    requires arms != []
  {
    [Arm(arms[0].head.WithoutBreak(), arms[0].action)] + arms[1..]
  }

  /// The expansion of the switch with a plain first arm.
  lemma {:induction false} PlainFirstExpansion(arms: seq<Arm>)
    requires ExpandSwitch(arms).Some?
    requires arms != [] && arms[0].head.Breaks()
    ensures ExpandHead(arms[0].head.WithoutBreak()).Some? && ExpandSwitch(arms[1..]).Some?
    ensures ExpandSwitch(WithPlainFirst(arms)) == Some(ExpandHead(arms[0].head.WithoutBreak()).value
      + ([Do(arms[0].action)] + ExpandSwitch(arms[1..]).value))
  {
    SwitchCons(arms);
    BreakingHead(arms[0].head);
    SwitchPrepend(Arm(arms[0].head.WithoutBreak(), arms[0].action), arms[1..]);
  }

  /// Writing the first arm with `bcase`/`bdefault` adds exactly one `break;`
  /// in front of the expansion.
  lemma {:induction false} LeadingBreakExpansion(arms: seq<Arm>)
    requires ExpandSwitch(arms).Some?
    requires arms != [] && arms[0].head.Breaks()
    ensures ExpandSwitch(WithPlainFirst(arms)).Some?
    ensures ExpandSwitch(arms).value == [Break] + ExpandSwitch(WithPlainFirst(arms)).value
  {
    var h := arms[0].head;
    SwitchCons(arms);
    BreakingHead(h);
    PlainFirstExpansion(arms);
    var labels := ExpandHead(h.WithoutBreak()).value;
    var tail := [Do(arms[0].action)] + ExpandSwitch(arms[1..]).value;
    assert ([Break] + labels) + tail == [Break] + (labels + tail);
  }

  /// The leading `break;` that `bcase`/`bdefault` put before the first arm is
  /// unreachable: writing the first arm with `fcase`/`fdefault` instead
  /// changes nothing at run time.
  lemma {:induction false} LeadingBreakIgnored(arms: seq<Arm>, x: int)
    requires ExpandSwitch(arms).Some?
    requires arms != [] && arms[0].head.Breaks()
    ensures ExpandSwitch(WithPlainFirst(arms)).Some?
    ensures Execute(ExpandSwitch(arms).value, x) == Execute(ExpandSwitch(WithPlainFirst(arms)).value, x)
  {
    LeadingBreakExpansion(arms);
    BreakFirstIgnored(ExpandSwitch(WithPlainFirst(arms)).value, x);
  }

  // ---------------------------------------------------------------------------
  // The four-arm example of the macros' documentation: A alone, B or C, D
  // falling through, then the default.

  function DocSwitch(a: int, b: int, c: int, d: int): seq<Arm>
  {
    [ Arm(BCase(a, []), "doA"),
      Arm(BCase(b, [c]), "doBC"),
      Arm(FCase(d, []), "doBCD"),
      Arm(BDefault, "doDefault") ]
  }

  /// `break; case A: doA(); break; case B: case C: doBC(); case D: doBCD(); break; default: doDefault();`
  function DocExpansion(a: int, b: int, c: int, d: int): seq<Stmt>
  {
    [ Break, Case(a), Do("doA"),
      Break, Case(b), Case(c), Do("doBC"),
      Case(d), Do("doBCD"),
      Break, Default, Do("doDefault") ]
  }

  /// The traditional way of writing the same switch.
  function DocTraditional(a: int, b: int, c: int, d: int): seq<Stmt>
  {
    [ Case(a), Do("doA"), Break,
      Case(b), Case(c), Do("doBC"),
      Case(d), Do("doBCD"), Break,
      Default, Do("doDefault") ]
  }

  /// What the documented example runs for each `x`.
  function DocOutcome(a: int, b: int, c: int, d: int, x: int): seq<string>
  {
    if x == a then ["doA"]
    else if x == b || x == c then ["doBC", "doBCD"]
    else if x == d then ["doBCD"]
    else ["doDefault"]
  }

  predicate Distinct4(a: int, b: int, c: int, d: int)
  {
    a != b && a != c && a != d && b != c && b != d && c != d
  }

  /// Each arm of the example expands to its labels and its body.
  lemma {:induction false} DocArms(a: int, b: int, c: int, d: int)
    ensures var arms := DocSwitch(a, b, c, d);
      && ExpandArm(arms[0]) == Some([Break, Case(a), Do("doA")])
      && ExpandArm(arms[1]) == Some([Break, Case(b), Case(c), Do("doBC")])
      && ExpandArm(arms[2]) == Some([Case(d), Do("doBCD")])
      && ExpandArm(arms[3]) == Some([Break, Default, Do("doDefault")])
  {
    BcaseExpansion(a, []);
    BcaseExpansion(b, [c]);
    FcaseExpansion(d, []);
    assert CaseLabels([a] + []) == [Case(a)];
    assert CaseLabels([b] + [c]) == [Case(b), Case(c)];
    assert CaseLabels([d] + []) == [Case(d)];
    assert [Break] + [Case(a)] + [Do("doA")] == [Break, Case(a), Do("doA")];
    assert [Break] + [Case(b), Case(c)] + [Do("doBC")] == [Break, Case(b), Case(c), Do("doBC")];
    assert [Case(d)] + [Do("doBCD")] == [Case(d), Do("doBCD")];
    assert [Break] + [Default] + [Do("doDefault")] == [Break, Default, Do("doDefault")];
  }

  /// The macros expand the example as its documentation shows.
  lemma {:induction false} DocExampleExpands(a: int, b: int, c: int, d: int)
    ensures ExpandSwitch(DocSwitch(a, b, c, d)) == Some(DocExpansion(a, b, c, d))
  {
    DocArms(a, b, c, d);
    var arms := DocSwitch(a, b, c, d);
    var e0 := [Break, Case(a), Do("doA")];
    var e1 := [Break, Case(b), Case(c), Do("doBC")];
    var e2 := [Case(d), Do("doBCD")];
    var e3 := [Break, Default, Do("doDefault")];
    assert arms[3..][1..] == [];
    assert ExpandSwitch(arms[3..]) == Some(e3 + []);
    assert arms[2..][1..] == arms[3..];
    assert ExpandSwitch(arms[2..]) == Some(e2 + (e3 + []));
    assert arms[1..][1..] == arms[2..];
    assert ExpandSwitch(arms[1..]) == Some(e1 + (e2 + (e3 + [])));
    assert ExpandSwitch(arms) == Some(e0 + (e1 + (e2 + (e3 + []))));
    assert e0 + (e1 + (e2 + (e3 + []))) == DocExpansion(a, b, c, d);
  }

  /// The arm each `x` enters in the documented example.
  lemma {:induction false} DocEntry(a: int, b: int, c: int, d: int, x: int)
    requires Distinct4(a, b, c, d)
    ensures Entry(DocSwitch(a, b, c, d), x) ==
      Some(if x == a then 0 else if x == b || x == c then 1 else if x == d then 2 else 3)
  {
    var arms := DocSwitch(a, b, c, d);
    var k := if x == a then 0 else if x == b || x == c then 1 else if x == d then 2 else 3;
    if k < 3 {
      assert arms[k].head.Carries(Case(x));
      assert FirstArm(arms, Case(x)).value <= k;
    } else {
      assert FirstArm(arms, Case(x)).None?;
      assert arms[3].head.Carries(Default);
      assert FirstArm(arms, Default).value == 3;
    }
  }

  /// `x = A` runs only doA; `x = B` or `C` runs doBC then doBCD; `x = D` runs
  /// only doBCD; any other `x` runs only doDefault.
  lemma {:induction false} DocExampleRuns(a: int, b: int, c: int, d: int, x: int)
    requires Distinct4(a, b, c, d)
    ensures Execute(DocExpansion(a, b, c, d), x) == DocOutcome(a, b, c, d, x)
  {
    var arms := DocSwitch(a, b, c, d);
    DocExampleExpands(a, b, c, d);
    ExecuteIsArmRun(arms, x);
    DocEntry(a, b, c, d, x);
    assert Chain(arms[3..]) == ["doDefault"];
    assert arms[2..][1..] == arms[3..];
    assert Chain(arms[2..]) == ["doBCD"];
    assert arms[1..][1..] == arms[2..];
    assert Chain(arms[1..]) == ["doBC", "doBCD"];
    assert Chain(arms[0..]) == ["doA"];
  }

  /// Where running the traditional version from each of its labels leads.
  lemma {:induction false} DocTraditionalRuns(a: int, b: int, c: int, d: int)
    ensures var t := DocTraditional(a, b, c, d);
      && RunFrom(t, 0) == ["doA"]
      && RunFrom(t, 3) == ["doBC", "doBCD"]
      && RunFrom(t, 4) == ["doBC", "doBCD"]
      && RunFrom(t, 6) == ["doBCD"]
      && RunFrom(t, 9) == ["doDefault"]
  {
    var t := DocTraditional(a, b, c, d);
    assert RunFrom(t, 11) == [];
    assert RunFrom(t, 10) == ["doDefault"];
    assert RunFrom(t, 9) == ["doDefault"];
    assert RunFrom(t, 8) == [];
    assert RunFrom(t, 7) == ["doBCD"];
    assert RunFrom(t, 6) == ["doBCD"];
    assert RunFrom(t, 5) == ["doBC", "doBCD"];
    assert RunFrom(t, 4) == ["doBC", "doBCD"];
    assert RunFrom(t, 3) == ["doBC", "doBCD"];
    assert RunFrom(t, 2) == [];
    assert RunFrom(t, 1) == ["doA"];
  }

  /// The traditional version runs what the documentation says for each `x`.
  lemma {:induction false} DocTraditionalExecutes(a: int, b: int, c: int, d: int, x: int)
    requires Distinct4(a, b, c, d)
    ensures Execute(DocTraditional(a, b, c, d), x) == DocOutcome(a, b, c, d, x)
  {
    DocTraditionalRuns(a, b, c, d);
    var t := DocTraditional(a, b, c, d);
    if x == a {
      FirstIndexAt(t, Case(x), 0);
    } else if x == b {
      FirstIndexAt(t, Case(x), 3);
    } else if x == c {
      FirstIndexAt(t, Case(x), 4);
    } else if x == d {
      FirstIndexAt(t, Case(x), 6);
    } else {
      assert Case(x) !in t;
      FirstIndexAt(t, Default, 9);
    }
  }

  /// The macro version and the traditional version behave the same.
  lemma {:induction false} DocExampleMatchesTraditional(a: int, b: int, c: int, d: int, x: int)
    requires Distinct4(a, b, c, d)
    ensures Execute(DocExpansion(a, b, c, d), x) == Execute(DocTraditional(a, b, c, d), x)
  {
    DocExampleRuns(a, b, c, d, x);
    DocTraditionalExecutes(a, b, c, d, x);
  }
}
