/** Positions in a source text: src/inpstr.c and src/inpfile.c.  An index of line
    beginnings, built once, turns offsets into lines and columns and back.  Columns
    count characters of one byte each. */
module Lines {
  import opened Wrappers

  datatype Position = Position(line: nat, col: nat)

  /** The offsets of the newlines, in order. */
  function Newlines(s: string): (r: seq<nat>)
    ensures |r| <= |s|
  {
    if s == [] then []
    else Newlines(s[..|s| - 1]) + if s[|s| - 1] == '\n' then [|s| - 1] else []
  }

  /** The newlines before an offset come first, and the others are not before it. */
  lemma {:induction false} NewlinesSplit(s: string, off: nat)
    requires off <= |s|
    ensures |Newlines(s[..off])| <= |Newlines(s)|
    ensures forall k :: 0 <= k < |Newlines(s)| ==> Newlines(s)[k] < |s|
    ensures forall k :: 0 <= k < |Newlines(s[..off])| ==> Newlines(s)[k] < off
    ensures forall k :: |Newlines(s[..off])| <= k < |Newlines(s)| ==> Newlines(s)[k] >= off
  {
    if off == |s| {
      assert s[..off] == s;
      if s != [] {
        NewlinesSplit(s[..|s| - 1], |s| - 1);
      }
    } else {
      NewlinesSplit(s[..|s| - 1], off);
      assert s[..|s| - 1][..off] == s[..off];
    }
  }

  lemma {:induction false} NewlinesAre(s: string, k: nat)
    requires k < |Newlines(s)|
    ensures Newlines(s)[k] < |s| && s[Newlines(s)[k]] == '\n'
  {
    if k < |Newlines(s[..|s| - 1])| {
      NewlinesAre(s[..|s| - 1], k);
    }
  }

  /** All of them. */
  lemma {:induction false} NewlinesAll(s: string, i: nat)
    requires i < |s| && s[i] == '\n'
    ensures i in Newlines(s)
  {
    if i < |s| - 1 {
      NewlinesAll(s[..|s| - 1], i);
    }
  }

  /** The beginning of a line. */
  function LineStart(s: string, line: nat): nat
    requires line <= |Newlines(s)|
  {
    if line == 0 then 0 else Newlines(s)[line - 1] + 1
  }

  function LineOf(s: string, off: nat): nat
    requires off <= |s|
  {
    |Newlines(s[..off])|
  }

  /** The line of an offset is the one whose beginning is last at or before it. */
  lemma LineOfIff(s: string, off: nat, line: nat)
    requires off <= |s| && line <= |Newlines(s)|
    ensures LineOf(s, off) == line <==>
            LineStart(s, line) <= off && (line < |Newlines(s)| ==> off < LineStart(s, line + 1))
  {
    NewlinesSplit(s, off);
    NewlinesOrdered(s);
  }

  lemma {:induction false} NewlinesOrdered(s: string)
    ensures forall j, k :: 0 <= j < k < |Newlines(s)| ==> Newlines(s)[j] < Newlines(s)[k]
  {
    if s != [] {
      NewlinesOrdered(s[..|s| - 1]);
      NewlinesSplit(s[..|s| - 1], |s| - 1);
    }
  }

  class InpStr {
    const str: string
    const lines: array<nat>

    /** The index of line beginnings; there is one more line than there are newlines. */
    ghost predicate Valid()
      reads this, lines
    {
      && lines.Length == |Newlines(str)| + 1
      && forall i :: 0 <= i < lines.Length ==> lines[i] == LineStart(str, i)
    }

    constructor FromSource(str: string)
      ensures this.str == str && fresh(lines) && Valid()
    {
      var positions := CountNewlines(str);
      var a := new nat[|positions| + 1];
      a[0] := 0;
      for i := 1 to a.Length
        invariant a[0] == 0 && forall j :: 1 <= j < i ==> a[j] == positions[j - 1] + 1
      {
        a[i] := positions[i - 1] + 1;
      }
      this.str, this.lines := str, a;
    }

    static method CountNewlines(s: string) returns (positions: seq<nat>)
      ensures positions == Newlines(s)
    {
      positions := [];
      assert s[..0] == [];
      for i := 0 to |s|
        invariant positions == Newlines(s[..i])
      {
        assert s[..i + 1][..i] == s[..i];
        if s[i] == '\n' {
          positions := positions + [i];
        }
      }
      assert s[..|s|] == s;
    }

    /** The line and column of an offset, for every offset up to the end of the text
        and for no other. */
    method PtrToLineCol(off: nat) returns (r: Option<Position>)
      requires Valid()
      ensures r.None? <==> off > |str|
      ensures r.Some? ==> r.value.line == LineOf(str, off) < lines.Length && LineStart(str, r.value.line) + r.value.col == off
    {
      hide LineStart, LineOf, Newlines;
      var i, found := 0, false;
      StartsWithin(str, lines.Length - 1);
      while i < lines.Length - 1
        invariant 0 <= i <= lines.Length - 1 && !found && lines[i] <= off
        invariant Valid()
      {
        StartsWithin(str, i + 1);
        if lines[i] <= off < lines[i + 1] {
          found := true;
          break;
        }
        i := i + 1;
      }
      if !found {
        if lines[lines.Length - 1] <= off <= |str| {
          i := lines.Length - 1;
        } else {
          return None;
        }
      }
      LineOfIff(str, off, i);
      return Some(Position(i, off - lines[i]));
    }

    /** Where a line begins; no line has the number of lines. */
    method LineP(line: nat) returns (r: Option<nat>)
      requires Valid() && line <= lines.Length
      ensures r == if line == lines.Length then None else Some(LineStart(str, line))
    {
      if line == lines.Length {
        return None;
      }
      return Some(lines[line]);
    }

    /** A line and a column inside it are found again from their offset. */
    method RoundTrip(line: nat, col: nat) returns (r: Option<Position>)
      requires Valid() && line < lines.Length && LineStart(str, line) + col <= |str|
      requires line + 1 < lines.Length ==> LineStart(str, line) + col < LineStart(str, line + 1)
      ensures r == Some(Position(line, col))
    {
      hide LineStart, LineOf, Newlines;
      var start := LineP(line);
      LineOfIff(str, start.value + col, line);
      r := PtrToLineCol(start.value + col);
    }
  }

  /** Beginnings of lines are inside the text, and the first is 0. */
  lemma StartsWithin(s: string, line: nat)
    requires line <= |Newlines(s)|
    ensures LineStart(s, 0) == 0 && LineStart(s, line) <= |s|
  {
    if line > 0 {
      NewlinesAre(s, line - 1);
    }
  }
}
