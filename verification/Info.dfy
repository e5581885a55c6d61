/** Snapshots of the compiler's messages: src/info/info.c.

    A snapshot is a mark, the last message of the list when it was taken, so that a
    rollback can cut the list again.  This is proved to refine a machine that saves
    the whole list with each snapshot, for any order of operations. */
module Info {
  import opened Wrappers

  class Message {
    const text: string

    constructor (text: string)
    {
      this.text := text;
    }
  }

  // ---------------------------------------------------------------- the machine that saves copies

  datatype Op = Add(m: Message) | Push | Pop | Rollback

  datatype State = State(msgs: seq<Message>, saved: seq<seq<Message>>)

  /** Popping from an empty stack is an error of the caller. */
  ghost predicate Allowed(op: Op, s: State) {
    (op.Pop? || op.Rollback?) ==> s.saved != []
  }

  ghost function Next(op: Op, s: State): State
    requires Allowed(op, s)
  {
    match op
    case Add(m) => s.(msgs := s.msgs + [m])
    case Push => s.(saved := s.saved + [s.msgs])
    case Pop => s.(saved := s.saved[..|s.saved| - 1])
    case Rollback => State(s.saved[|s.saved| - 1], s.saved[..|s.saved| - 1])
  }

  ghost function Run(ops: seq<Op>, s: State): Option<State>
    decreases |ops|
  {
    if ops == [] then Some(s)
    else if !Allowed(ops[0], s) then None
    else Run(ops[1..], Next(ops[0], s))
  }

  /** Each push is undone by its own pop or rollback. */
  ghost predicate Nested(ops: seq<Op>, depth: nat)
    decreases |ops|
  {
    if ops == [] then depth == 0
    else
      match ops[0]
      case Add(_) => Nested(ops[1..], depth)
      case Push => Nested(ops[1..], depth + 1)
      case Pop => depth > 0 && Nested(ops[1..], depth - 1)
      case Rollback => depth > 0 && Nested(ops[1..], depth - 1)
  }

  /** A well-nested run leaves the snapshots below its own alone. */
  lemma {:induction false} NestedRun(ops: seq<Op>, s: State, depth: nat)
    requires Nested(ops, depth) && depth <= |s.saved|
    ensures Run(ops, s).Some? && Run(ops, s).value.saved == s.saved[..|s.saved| - depth]
    decreases |ops|
  {
    if ops != [] {
      NestedRun(ops[1..], Next(ops[0], s), if ops[0].Add? then depth else if ops[0].Push? then depth + 1 else depth - 1);
    }
  }

  /** Messages added stand behind the others, in order. */
  lemma {:induction false} MessagesAdded(ms: seq<Message>, s: State)
    ensures Run(seq(|ms|, k requires 0 <= k < |ms| => Add(ms[k])), s) == Some(s.(msgs := s.msgs + ms))
    decreases |ms|
  {
    if ms != [] {
      var ops := seq(|ms|, k requires 0 <= k < |ms| => Add(ms[k]));
      assert ops[1..] == seq(|ms[1..]|, k requires 0 <= k < |ms[1..]| => Add(ms[1..][k]));
      MessagesAdded(ms[1..], Next(ops[0], s));
      assert s.msgs + [ms[0]] + ms[1..] == s.msgs + ms;
    } else {
      assert s.msgs + ms == s.msgs;
    }
  }

  /** A push, any well-nested run, and the matching rollback: nothing has happened. */
  lemma RollbackRestores(ops: seq<Op>, s: State)
    requires Nested(ops, 0)
    ensures Run([Push] + ops + [Rollback], s) == Some(s)
  {
    var s1 := Next(Push, s);
    NestedRun(ops, s1, 0);
    RunConcat(ops, [Rollback], s1);
    assert ([Push] + ops + [Rollback])[1..] == ops + [Rollback];
    var s2 := Run(ops, s1).value;
    assert s2.saved == s1.saved && [Rollback][1..] == [];
    assert Run([Rollback], s2) == Run([], Next(Rollback, s2));
    assert s1.saved[..|s1.saved| - 1] == s.saved;
  }

  /** With a pop instead, the messages of the run stay. */
  lemma PopKeeps(ops: seq<Op>, s: State)
    requires Nested(ops, 0)
    ensures
      var s1 := Next(Push, s);
      Run(ops, s1).Some? && Run([Push] + ops + [Pop], s) == Some(State(Run(ops, s1).value.msgs, s.saved))
  {
    var s1 := Next(Push, s);
    NestedRun(ops, s1, 0);
    RunConcat(ops, [Pop], s1);
    assert ([Push] + ops + [Pop])[1..] == ops + [Pop];
    var s2 := Run(ops, s1).value;
    assert s2.saved == s1.saved && [Pop][1..] == [];
    assert Run([Pop], s2) == Run([], Next(Pop, s2));
    assert s1.saved[..|s1.saved| - 1] == s.saved;
  }

  lemma {:induction false} RunConcat(a: seq<Op>, b: seq<Op>, s: State)
    ensures Run(a + b, s) == if Run(a, s).None? then None else Run(b, Run(a, s).value)
    decreases |a|
  {
    if a == [] {
      assert a + b == b;
    } else {
      assert (a + b)[1..] == a[1..] + b;
      if Allowed(a[0], s) {
        RunConcat(a[1..], b, Next(a[0], s));
      }
    }
  }

  // ---------------------------------------------------------------- lists cut at a mark

  /** The messages up to and including the mark; none when there is no mark. */
  function Upto(msgs: seq<Message>, mark: Option<Message>): seq<Message> {
    if msgs == [] || mark == Some(msgs[|msgs| - 1]) then msgs else Upto(msgs[..|msgs| - 1], mark)
  }

  function Last(msgs: seq<Message>): Option<Message> {
    if msgs == [] then None else Some(msgs[|msgs| - 1])
  }

  lemma {:induction false} UptoPrefix(msgs: seq<Message>, mark: Option<Message>)
    ensures |Upto(msgs, mark)| <= |msgs| && Upto(msgs, mark) == msgs[..|Upto(msgs, mark)|]
  {
    if msgs != [] && mark != Some(msgs[|msgs| - 1]) {
      UptoPrefix(msgs[..|msgs| - 1], mark);
    }
  }

  /** Cutting behind a mark does not move the mark. */
  lemma {:induction false} UptoWithin(msgs: seq<Message>, mark: Option<Message>, n: nat)
    requires |Upto(msgs, mark)| <= n <= |msgs|
    ensures Upto(msgs[..n], mark) == Upto(msgs, mark)
  {
    if n < |msgs| {
      UptoWithin(msgs[..|msgs| - 1], mark, n);
      assert msgs[..|msgs| - 1][..n] == msgs[..n];
    } else {
      assert msgs[..n] == msgs;
    }
  }

  lemma UptoMore(msgs: seq<Message>, m: Message, mark: Option<Message>)
    requires mark != Some(m)
    ensures Upto(msgs + [m], mark) == Upto(msgs, mark)
  {
    assert (msgs + [m])[..|msgs|] == msgs;
  }

  /** What the marks stand for. */
  function Saved(msgs: seq<Message>, marks: seq<Option<Message>>): seq<seq<Message>> {
    seq(|marks|, k requires 0 <= k < |marks| => Upto(msgs, marks[k]))
  }

  ghost predicate Ordered(msgs: seq<Message>, marks: seq<Option<Message>>) {
    forall j, k :: 0 <= j < k < |marks| ==> |Upto(msgs, marks[j])| <= |Upto(msgs, marks[k])|
  }

  /** Messages are listed once; every mark is a message of the list or none, and
      marks are in the order of the list. */
  ghost predicate MarksOk(msgs: seq<Message>, marks: seq<Option<Message>>) {
    && (forall i, j :: 0 <= i < j < |msgs| ==> msgs[i] != msgs[j])
    && (forall k :: 0 <= k < |marks| && marks[k].Some? ==> marks[k].value in msgs)
    && Ordered(msgs, marks)
  }

  // ---------------------------------------------------------------- the compiler's machine

  class InfoCtx {
    var msgList: seq<Message>
    var msgNum: nat
    var lastMsgs: seq<Option<Message>>

    ghost predicate Valid()
      reads this
    {
      MarksOk(msgList, lastMsgs)
    }

    ghost function Abstract(): State
      reads this
    {
      State(msgList, Saved(msgList, lastMsgs))
    }

    constructor ()
      ensures Valid() && Abstract() == State([], [])
    {
      msgList, msgNum, lastMsgs := [], 0, [];
    }

    method AddMsg(m: Message)
      requires Valid() && m !in msgList
      modifies this
      ensures Valid() && Abstract() == Next(Add(m), old(Abstract()))
      ensures msgNum == old(msgNum) + 1
    {
      forall k | 0 <= k < |lastMsgs| ensures Upto(msgList + [m], lastMsgs[k]) == Upto(msgList, lastMsgs[k]) {
        UptoMore(msgList, m, lastMsgs[k]);
      }
      msgList := msgList + [m];
      msgNum := msgNum + 1;
    }

    method Push()
      requires Valid()
      modifies this`lastMsgs
      ensures Valid() && Abstract() == Next(Op.Push, old(Abstract()))
    {
      forall k | 0 <= k < |lastMsgs| ensures |Upto(msgList, lastMsgs[k])| <= |msgList| {
        UptoPrefix(msgList, lastMsgs[k]);
      }
      assert Upto(msgList, Last(msgList)) == msgList;
      lastMsgs := lastMsgs + [Last(msgList)];
    }

    method Pop()
      requires Valid() && lastMsgs != []
      modifies this`lastMsgs
      ensures Valid() && Abstract() == Next(Op.Pop, old(Abstract()))
    {
      lastMsgs := lastMsgs[..|lastMsgs| - 1];
    }

    method Rollback()
      requires Valid() && lastMsgs != []
      modifies this`lastMsgs, this`msgList
      ensures Valid() && Abstract() == Next(Op.Rollback, old(Abstract()))
    {
      hide MarksOk, Upto;
      CutSaved(msgList, lastMsgs);
      var untilMsg := lastMsgs[|lastMsgs| - 1];
      lastMsgs := lastMsgs[..|lastMsgs| - 1];
      RemoveAfter(untilMsg);
    }

    /** Messages are removed from the end until the mark is the last. */
    method RemoveAfter(untilMsg: Option<Message>)
      modifies this`msgList
      ensures msgList == Upto(old(msgList), untilMsg)
    {
      while msgList != [] && Some(msgList[|msgList| - 1]) != untilMsg
        invariant Upto(msgList, untilMsg) == Upto(old(msgList), untilMsg)
        decreases |msgList|
      {
        msgList := msgList[..|msgList| - 1];
      }
    }

    /** Any run of operations. */
    method RunAll(ops: seq<Op>)
      requires Valid() && Run(ops, Abstract()).Some?
      requires forall i :: 0 <= i < |ops| && ops[i].Add? ==> ops[i].m !in msgList
      requires forall i, j :: 0 <= i < j < |ops| && ops[i].Add? && ops[j].Add? ==> ops[i].m != ops[j].m
      modifies this
      ensures Valid() && Some(Abstract()) == Run(ops, old(Abstract()))
    {
      hide Valid, Nested;
      assert ops[0..] == ops;
      for i := 0 to |ops|
        invariant Valid() && Run(ops[i..], Abstract()) == Run(ops, old(Abstract())) && Run(ops, old(Abstract())).Some?
        invariant forall j :: i <= j < |ops| && ops[j].Add? ==> ops[j].m !in msgList
      {
        assert ops[i..][0] == ops[i] && ops[i..][1..] == ops[i + 1..];
        assert Allowed(ops[i], Abstract());
        SmallerLists(msgList, lastMsgs);
        match ops[i]
        case Add(m) => AddMsg(m);
        case Push => Push();
        case Pop => Pop();
        case Rollback => Rollback();
      }
    }
  }

  /** No saved list has a message that the list does not have. */
  lemma SmallerLists(msgs: seq<Message>, marks: seq<Option<Message>>)
    ensures forall k, m :: 0 <= k < |marks| && m in Saved(msgs, marks)[k] ==> m in msgs
  {
    forall k, m | 0 <= k < |marks| && m in Saved(msgs, marks)[k] ensures m in msgs {
      UptoPrefix(msgs, marks[k]);
      assert m in msgs[..|Upto(msgs, marks[k])|];
    }
  }

  /** A cut at the last mark leaves all earlier marks where they are. */
  lemma CutSaved(msgs: seq<Message>, marks: seq<Option<Message>>)
    requires marks != [] && MarksOk(msgs, marks)
    ensures Saved(msgs, marks)[|marks| - 1] == Upto(msgs, marks[|marks| - 1])
    ensures
      var cut, rest := Upto(msgs, marks[|marks| - 1]), marks[..|marks| - 1];
      MarksOk(cut, rest) && Saved(cut, rest) == Saved(msgs, marks)[..|marks| - 1]
  {
    hide Upto;
    var cut, rest := Upto(msgs, marks[|marks| - 1]), marks[..|marks| - 1];
    UptoPrefix(msgs, marks[|marks| - 1]);
    forall k | 0 <= k < |rest|
      ensures Upto(cut, rest[k]) == Upto(msgs, marks[k])
      ensures rest[k].Some? ==> rest[k].value in cut
    {
      UptoWithin(msgs, marks[k], |cut|);
      if rest[k].Some? {
        UptoHolds(msgs, rest[k]);
        UptoPrefix(cut, rest[k]);
      }
    }
  }

  lemma {:induction false} UptoHolds(msgs: seq<Message>, mark: Option<Message>)
    requires mark.Some? && mark.value in msgs
    ensures mark.value in Upto(msgs, mark)
  {
    if mark != Some(msgs[|msgs| - 1]) {
      assert msgs == msgs[..|msgs| - 1] + [msgs[|msgs| - 1]];
      UptoHolds(msgs[..|msgs| - 1], mark);
    }
  }
}
