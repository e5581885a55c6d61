/** Ordering the types of a module for the RIR: `typeset_to_ordered_array` in
    src/analyzer/type_set.c.  Every type is to come once, after the types that are
    its operands. */
module TypeSet {

  /** Types by their identity; `IsChild(a, b)` when a is an operand of b.  The set is
      visited in the order of `all`. */
  datatype Types = Types(all: seq<nat>, children: map<nat, set<nat>>)

  predicate IsChild(ts: Types, a: nat, b: nat) {
    b in ts.children && a in ts.children[b]
  }

  ghost predicate Distinct(s: seq<nat>) {
    forall i, j :: 0 <= i < j < |s| ==> s[i] != s[j]
  }

  /** Entered before b, if b was entered. */
  ghost predicate Before(arr: seq<nat>, a: nat, b: nat) {
    exists i, j :: 0 <= i < j < |arr| && arr[i] == a && arr[j] == b
  }

  /** Operands that are types of the set are not themselves operations on types of the set. */
  ghost predicate OneLevel(ts: Types) {
    forall a, b, c :: a in ts.all && b in ts.all && c in ts.all && a != b && b != c ==>
      !(IsChild(ts, a, b) && IsChild(ts, b, c))
  }

  ghost predicate OperandsFirst(ts: Types, arr: seq<nat>) {
    forall a, b :: a in ts.all && b in ts.all && a != b && IsChild(ts, a, b) ==> Before(arr, a, b)
  }

  lemma BeforeStays(arr: seq<nat>, more: seq<nat>, a: nat, b: nat)
    requires Before(arr, a, b)
    ensures Before(arr + more, a, b)
  {
    var i, j :| 0 <= i < j < |arr| && arr[i] == a && arr[j] == b;
    assert (arr + more)[i] == a && (arr + more)[j] == b;
  }

  lemma BeforeNew(arr: seq<nat>, a: nat, b: nat)
    requires a in arr
    ensures Before(arr + [b], a, b)
  {
    var i :| 0 <= i < |arr| && arr[i] == a;
    assert (arr + [b])[i] == a && (arr + [b])[|arr|] == b;
  }

  // ---------------------------------------------------------------- the array

  function Appended(arr: seq<nat>, t: nat): seq<nat> {
    if t in arr then arr else arr + [t]
  }

  function AppendedAll(arr: seq<nat>, ts: seq<nat>): seq<nat> {
    if ts == [] then arr else Appended(AppendedAll(arr, ts[..|ts| - 1]), ts[|ts| - 1])
  }

  /** The types of s that are operands of t, in the order of s. */
  function OperandsIn(ts: Types, s: seq<nat>, t: nat): (r: seq<nat>)
    ensures forall a :: a in r <==> a in s && a != t && IsChild(ts, a, t)
  {
    if s == [] then []
    else
      var a := s[|s| - 1];
      assert s == s[..|s| - 1] + [a];
      OperandsIn(ts, s[..|s| - 1], t) + if a != t && IsChild(ts, a, t) then [a] else []
  }

  /** The array after i types of the set: each is entered behind its operands. */
  function Entered(ts: Types, i: nat): seq<nat>
    requires i <= |ts.all|
  {
    if i == 0 then []
    else
      var t := ts.all[i - 1];
      Appended(AppendedAll(Entered(ts, i - 1), OperandsIn(ts, ts.all, t)), t)
  }

  function Ordered(ts: Types): seq<nat> {
    Entered(ts, |ts.all|)
  }

  lemma {:induction false} AppendedAllIs(arr: seq<nat>, ts: seq<nat>)
    requires Distinct(arr)
    ensures Distinct(AppendedAll(arr, ts)) && arr <= AppendedAll(arr, ts)
    ensures forall t :: t in AppendedAll(arr, ts) <==> t in arr || t in ts
    decreases |ts|
  {
    if ts != [] {
      AppendedAllIs(arr, ts[..|ts| - 1]);
      assert ts == ts[..|ts| - 1] + [ts[|ts| - 1]];
    }
  }

  class OrderedArray {
    var arr: seq<nat>

    constructor ()
      ensures arr == []
    {
      arr := [];
    }

    method Append(t: nat)
      modifies this
      ensures arr == Appended(old(arr), t)
    {
      for i := 0 to |arr|
        invariant t !in arr[..i]
      {
        if t == arr[i] {
          return;
        }
      }
      arr := arr + [t];
    }

    method AppendAll(ts: seq<nat>)
      modifies this
      ensures arr == AppendedAll(old(arr), ts)
    {
      assert ts[..0] == [];
      for i := 0 to |ts|
        invariant arr == AppendedAll(old(arr), ts[..i])
      {
        Append(ts[i]);
        assert ts[..i + 1][..i] == ts[..i];
      }
      assert ts[..|ts|] == ts;
    }
  }

  method DependingTypes(ts: Types, t: nat) returns (depending: seq<nat>)
    ensures depending == OperandsIn(ts, ts.all, t)
  {
    depending := [];
    assert ts.all[..0] == [];
    for i := 0 to |ts.all|
      invariant depending == OperandsIn(ts, ts.all[..i], t)
    {
      var t2 := ts.all[i];
      if t2 != t && IsChild(ts, t2, t) {
        depending := depending + [t2];
      }
      assert ts.all[..i + 1][..i] == ts.all[..i];
    }
    assert ts.all[..|ts.all|] == ts.all;
  }

  /** Every type of the set once, for any set; operands first, if operands in the set
      are nested one level deep. */
  method ToOrderedArray(ts: Types) returns (arr: seq<nat>)
    requires Distinct(ts.all)
    ensures arr == Ordered(ts)
    ensures Distinct(arr) && forall t :: t in arr <==> t in ts.all
    ensures OneLevel(ts) ==> OperandsFirst(ts, arr)
  {
    hide OneLevel, OperandsFirst;
    var o := new OrderedArray();
    for i := 0 to |ts.all|
      invariant fresh(o) && o.arr == Entered(ts, i)
    {
      var t := ts.all[i];
      var depending := DependingTypes(ts, t);
      o.AppendAll(depending);
      o.Append(t);
    }
    arr := o.arr;
    OrderedIsPermutation(ts);
    if OneLevel(ts) {
      OneLevelOrdered(ts);
    }
  }

  /** The array is one of types of the set, each once, and has the first i. */
  ghost predicate HasFirst(ts: Types, arr: seq<nat>, i: nat)
    requires i <= |ts.all|
  {
    Distinct(arr) && (forall t :: t in ts.all[..i] ==> t in arr) && forall t :: t in arr ==> t in ts.all
  }

  lemma {:induction false} EnteredIs(ts: Types, i: nat)
    requires i <= |ts.all| && Distinct(ts.all)
    ensures Distinct(Entered(ts, i)) && HasFirst(ts, Entered(ts, i), i)
  {
    hide IsChild, HasFirst, Distinct;
    if i == 0 {
      NoneEntered(ts);
    } else {
      EnteredIs(ts, i - 1);
      FirstAppended(ts, Entered(ts, i - 1), OperandsIn(ts, ts.all, ts.all[i - 1]), i - 1);
    }
  }

  lemma NoneEntered(ts: Types)
    ensures Distinct([]) && HasFirst(ts, [], 0)
  {
  }

  lemma FirstAppended(ts: Types, arr: seq<nat>, depending: seq<nat>, i: nat)
    requires i < |ts.all| && HasFirst(ts, arr, i) && forall t :: t in depending ==> t in ts.all
    ensures var after := Appended(AppendedAll(arr, depending), ts.all[i]);
            Distinct(after) && HasFirst(ts, after, i + 1)
  {
    AppendedAllIs(arr, depending);
    assert ts.all[..i + 1] == ts.all[..i] + [ts.all[i]];
  }

  lemma OrderedIsPermutation(ts: Types)
    requires Distinct(ts.all)
    ensures Distinct(Ordered(ts)) && forall t :: t in Ordered(ts) <==> t in ts.all
  {
    EnteredIs(ts, |ts.all|);
    assert ts.all[..|ts.all|] == ts.all;
  }

  // ---------------------------------------------------------------- one level of nesting

  /** Operands of the types done so far come before them. */
  ghost predicate Done(ts: Types, arr: seq<nat>, i: nat)
    requires i <= |ts.all|
  {
    forall a, k :: a in ts.all && 0 <= k < i && a != ts.all[k] && IsChild(ts, a, ts.all[k]) ==> Before(arr, a, ts.all[k])
  }

  /** Types entered early are operands of a type done. */
  ghost predicate EarlyAreOperands(ts: Types, arr: seq<nat>, i: nat)
    requires i <= |ts.all|
  {
    forall b :: b in arr ==> b in ts.all && (b in ts.all[..i] || exists c :: c in ts.all && c != b && IsChild(ts, b, c))
  }

  /** What entering the type i does to the array, by the stages `Entered` goes through. */
  ghost predicate Step(ts: Types, before: seq<nat>, depending: seq<nat>, between: seq<nat>, after: seq<nat>, i: nat)
    requires i < |ts.all|
  {
    (forall a :: a in depending <==> a in ts.all && a != ts.all[i] && IsChild(ts, a, ts.all[i])) &&
    before <= between && (forall b :: b in between <==> b in before || b in depending) &&
    after == if ts.all[i] in between then between else between + [ts.all[i]]
  }

  lemma EnteredStep(ts: Types, i: nat) returns (depending: seq<nat>, between: seq<nat>)
    requires i < |ts.all| && Distinct(ts.all)
    ensures Step(ts, Entered(ts, i), depending, between, Entered(ts, i + 1), i)
  {
    hide IsChild, Distinct, HasFirst, Step;
    EnteredIs(ts, i);
    depending, between := StepFrom(ts, Entered(ts, i), i);
  }

  lemma StepFrom(ts: Types, arr: seq<nat>, i: nat) returns (depending: seq<nat>, between: seq<nat>)
    requires i < |ts.all| && Distinct(arr)
    ensures depending == OperandsIn(ts, ts.all, ts.all[i]) && between == AppendedAll(arr, depending)
    ensures Step(ts, arr, depending, between, Appended(between, ts.all[i]), i)
  {
    hide IsChild, Distinct;
    depending := OperandsIn(ts, ts.all, ts.all[i]);
    between := AppendedAll(arr, depending);
    AppendedAllIs(arr, depending);
  }

  lemma StepEarly(ts: Types, before: seq<nat>, depending: seq<nat>, between: seq<nat>, after: seq<nat>, i: nat)
    requires i < |ts.all| && EarlyAreOperands(ts, before, i) && Step(ts, before, depending, between, after, i)
    ensures EarlyAreOperands(ts, after, i + 1)
  {
    hide IsChild;
    assert ts.all[..i + 1] == ts.all[..i] + [ts.all[i]];
    forall b | b in after
      ensures b in ts.all && (b in ts.all[..i + 1] || exists c :: c in ts.all && c != b && IsChild(ts, b, c))
    {
      if b in depending {
        assert ts.all[i] in ts.all && IsChild(ts, b, ts.all[i]);
      }
    }
  }

  lemma StepDone(ts: Types, before: seq<nat>, depending: seq<nat>, between: seq<nat>, after: seq<nat>, i: nat)
    requires i < |ts.all| && Distinct(ts.all) && OneLevel(ts) && EarlyAreOperands(ts, before, i) && Done(ts, before, i)
    requires Step(ts, before, depending, between, after, i)
    ensures Done(ts, after, i + 1)
  {
    hide IsChild, Before, EarlyAreOperands, OneLevel;
    var t := ts.all[i];
    forall a, k | a in ts.all && 0 <= k < i + 1 && a != ts.all[k] && IsChild(ts, a, ts.all[k])
      ensures Before(after, a, ts.all[k])
    {
      if k < i {
        BeforeStays(before, after[|before|..], a, ts.all[k]);
        assert after == before + after[|before|..];
      } else {
        NotEarly(ts, before, a, i);
        assert t !in between;
        BeforeNew(between, a, t);
      }
    }
  }

  lemma NoneDone(ts: Types)
    ensures EarlyAreOperands(ts, Entered(ts, 0), 0) && Done(ts, Entered(ts, 0), 0)
  {
    assert Entered(ts, 0) == [];
  }

  lemma {:induction false} EnteredDone(ts: Types, i: nat)
    requires i <= |ts.all| && Distinct(ts.all) && OneLevel(ts)
    ensures EarlyAreOperands(ts, Entered(ts, i), i) && Done(ts, Entered(ts, i), i)
  {
    hide IsChild, Before, EarlyAreOperands, OneLevel, Done, Step, Entered;
    if i == 0 {
      NoneDone(ts);
    } else {
      EnteredDone(ts, i - 1);
      var depending, between := EnteredStep(ts, i - 1);
      StepEarly(ts, Entered(ts, i - 1), depending, between, Entered(ts, i), i - 1);
      StepDone(ts, Entered(ts, i - 1), depending, between, Entered(ts, i), i - 1);
    }
  }

  /** With one level of nesting, a type that has operands is not entered early. */
  lemma NotEarly(ts: Types, before: seq<nat>, a: nat, i: nat)
    requires i < |ts.all| && Distinct(ts.all) && OneLevel(ts) && EarlyAreOperands(ts, before, i)
    requires a in ts.all && a != ts.all[i] && IsChild(ts, a, ts.all[i])
    ensures ts.all[i] !in before
  {
    hide IsChild;
    assert ts.all[i] !in ts.all[..i];
  }

  lemma OneLevelOrdered(ts: Types)
    requires Distinct(ts.all) && OneLevel(ts)
    ensures OperandsFirst(ts, Ordered(ts))
  {
    hide Before, IsChild, OneLevel;
    EnteredDone(ts, |ts.all|);
    forall a, b | a in ts.all && b in ts.all && a != b && IsChild(ts, a, b) ensures Before(Ordered(ts), a, b) {
      var k :| 0 <= k < |ts.all| && ts.all[k] == b;
    }
  }

  // ---------------------------------------------------------------- deeper nesting

  /** The same set, visited in another order. */
  ghost predicate SameSet(ts: Types, us: Types) {
    us.children == ts.children && Distinct(us.all) && forall t :: t in us.all <==> t in ts.all
  }

  /** Operands come first whatever the order in which the set is visited, if and only if
      operands are nested one level deep. */
  lemma OperandsFirstIff(ts: Types)
    requires Distinct(ts.all)
    ensures (forall us :: SameSet(ts, us) ==> OperandsFirst(us, Ordered(us))) <==> OneLevel(ts)
  {
    hide OperandsFirst, Ordered, IsChild;
    if OneLevel(ts) {
      forall us | SameSet(ts, us) ensures OperandsFirst(us, Ordered(us)) {
        OneLevelSame(ts, us);
        OneLevelOrdered(us);
      }
    } else {
      var a, b, c :| a in ts.all && b in ts.all && c in ts.all && a != b && b != c && IsChild(ts, a, b) && IsChild(ts, b, c);
      var us := OuterFirst(ts, b, c);
      SameChildren(ts, us, a, b);
      SameChildren(ts, us, b, c);
      OuterFirstBreaks(us, a, b, c);
    }
  }

  lemma SameChildren(ts: Types, us: Types, a: nat, b: nat)
    requires us.children == ts.children
    ensures IsChild(ts, a, b) <==> IsChild(us, a, b)
  {
  }

  lemma OneLevelSame(ts: Types, us: Types)
    requires SameSet(ts, us) && OneLevel(ts)
    ensures OneLevel(us)
  {
  }

  function Without(s: seq<nat>, b: nat, c: nat): (r: seq<nat>)
    ensures forall t :: t in r <==> t in s && t != b && t != c
  {
    if s == [] then []
    else
      var t := s[|s| - 1];
      assert s == s[..|s| - 1] + [t];
      Without(s[..|s| - 1], b, c) + if t != b && t != c then [t] else []
  }

  lemma {:induction false} WithoutDistinct(s: seq<nat>, b: nat, c: nat)
    requires Distinct(s)
    ensures Distinct(Without(s, b, c))
    decreases |s|
  {
    if s != [] {
      WithoutDistinct(s[..|s| - 1], b, c);
      assert s[|s| - 1] !in s[..|s| - 1];
    }
  }

  /** The order that visits c first and its operand b next. */
  lemma OuterFirst(ts: Types, b: nat, c: nat) returns (us: Types)
    requires Distinct(ts.all) && b in ts.all && c in ts.all && b != c
    ensures SameSet(ts, us) && |us.all| >= 2 && us.all[0] == c && us.all[1] == b
  {
    var rest := Without(ts.all, b, c);
    WithoutDistinct(ts.all, b, c);
    us := Types([c, b] + rest, ts.children);
    FrontDistinct(b, rest);
    FrontDistinct(c, [b] + rest);
    assert us.all == [c] + ([b] + rest);
  }

  lemma FrontDistinct(t: nat, s: seq<nat>)
    requires Distinct(s) && t !in s
    ensures Distinct([t] + s) && forall u :: u in [t] + s <==> u == t || u in s
  {
    forall i, j | 0 <= i < j < |[t] + s| ensures ([t] + s)[i] != ([t] + s)[j] {
      assert ([t] + s)[j] == s[j - 1];
    }
  }

  /** Then b is entered first of all, and its own operand a after it. */
  lemma OuterFirstBreaks(us: Types, a: nat, b: nat, c: nat)
    requires Distinct(us.all) && |us.all| >= 2 && us.all[0] == c && us.all[1] == b
    requires a in us.all && a != b && IsChild(us, a, b) && IsChild(us, b, c)
    ensures !OperandsFirst(us, Ordered(us))
  {
    hide IsChild, Ordered;
    FirstEntered(us, b, c);
    OrderedIsPermutation(us);
    assert !Before(Ordered(us), a, b);
  }

  lemma FirstEntered(us: Types, b: nat, c: nat)
    requires Distinct(us.all) && |us.all| >= 2 && us.all[0] == c && us.all[1] == b && IsChild(us, b, c)
    ensures Ordered(us) != [] && Ordered(us)[0] == b
  {
    hide IsChild;
    FirstOperand(us, us.all, b, c);
    var first := OperandsIn(us, us.all, c);
    AppendedFirst([], first);
    assert Entered(us, 0) == [];
    AppendedAllIs([], first);
    assert Entered(us, 1) == Appended(AppendedAll([], first), c);
    EnteredGrows(us, 1, |us.all|);
  }

  lemma {:induction false} FirstOperand(us: Types, s: seq<nat>, b: nat, c: nat)
    requires |s| >= 2 && s[0] == c && s[1] == b && b != c && IsChild(us, b, c)
    ensures OperandsIn(us, s, c) != [] && OperandsIn(us, s, c)[0] == b
    decreases |s|
  {
    hide IsChild;
    if |s| > 2 {
      FirstOperand(us, s[..|s| - 1], b, c);
    } else {
      assert s[..1][..0] == [] && OperandsIn(us, s[..1], c) == [];
    }
  }

  lemma {:induction false} AppendedFirst(arr: seq<nat>, ts: seq<nat>)
    requires arr == [] && ts != []
    ensures AppendedAll(arr, ts) != [] && AppendedAll(arr, ts)[0] == ts[0]
    decreases |ts|
  {
    if |ts| > 1 {
      AppendedFirst(arr, ts[..|ts| - 1]);
    } else {
      assert ts[..0] == [];
    }
  }

  lemma {:induction false} EnteredGrows(ts: Types, i: nat, j: nat)
    requires i <= j <= |ts.all| && Distinct(ts.all)
    ensures Entered(ts, i) <= Entered(ts, j)
    decreases j
  {
    hide IsChild, Entered, Distinct;
    if i < j {
      EnteredGrows(ts, i, j - 1);
      var depending, between := EnteredStep(ts, j - 1);
    }
  }

  /** Three types, each an operand of the next, visited from the outside in. */
  lemma ChainBreaks(ts: Types)
    requires ts == Types([3, 2, 1], map[3 := {2}, 2 := {1}])
    ensures !OperandsFirst(ts, Ordered(ts))
  {
    OuterFirstBreaks(ts, 1, 2, 3);
  }
}
