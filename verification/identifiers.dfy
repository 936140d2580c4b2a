/** MySQL identifier quoting (builder.go's `escapeIdentifier`): wrap the name
    in backticks and double every backtick inside it. The partner is a
    reader for quoted identifiers, as a SQL lexer applies it: it recovers
    exactly the name and leaves whatever follows untouched, which is what
    makes the quoting injection-safe. */
module Identifiers {
  import opened Base

  const Tick: char := '`'

  /** The name with every backtick doubled. */
  function Double(name: string): string
  {
    if |name| == 0 then ""
    else (if name[0] == Tick then [Tick, Tick] else [name[0]]) + Double(name[1..])
  }

  function CountTicks(s: string): nat
  {
    if |s| == 0 then 0 else (if s[0] == Tick then 1 else 0) + CountTicks(s[1..])
  }

  /** Text made of single non-backtick characters and doubled backticks. */
  predicate Paired(t: string)
    decreases |t|
  {
    if |t| == 0 then true
    else if t[0] != Tick then Paired(t[1..])
    else |t| >= 2 && t[1] == Tick && Paired(t[2..])
  }

  /** escapeIdentifier. */
  function Escape(name: string): string
  {
    [Tick] + Double(name) + [Tick]
  }

  /** A quoted name is one backtick longer than the name per backtick in it
      plus the two quotes, starts and ends with a backtick, and its interior
      pairs every backtick. */
  lemma EscapeShape(name: string)
    ensures |Escape(name)| == |name| + 2 + CountTicks(name)
    ensures Escape(name)[0] == Tick && Escape(name)[|Escape(name)| - 1] == Tick
    ensures Paired(Escape(name)[1..|Escape(name)| - 1])
  {
    DoubleFacts(name);
    var r := Escape(name);
    assert r[1..|r| - 1] == Double(name);
  }

  lemma {:induction false} DoubleFacts(name: string)
    ensures |Double(name)| == |name| + CountTicks(name)
    ensures Paired(Double(name))
    decreases |name|
  {
    if |name| > 0 {
      DoubleFacts(name[1..]);
      var d := Double(name);
      if name[0] == Tick {
        assert d[2..] == Double(name[1..]);
      } else {
        assert d[1..] == Double(name[1..]);
      }
    }
  }

  /** Reads the body of a quoted identifier (the text after the opening
      backtick): a doubled backtick stands for one backtick, a single one
      closes the identifier. Returns the name and the text after it. */
  function ReadBody(t: string): Option<(string, string)>
    decreases |t|
  {
    if |t| == 0 then None
    else if t[0] == Tick then
      if |t| >= 2 && t[1] == Tick then
        match ReadBody(t[2..])
        case None => None
        case Some(p) => Some(([Tick] + p.0, p.1))
      else Some(("", t[1..]))
    else
      match ReadBody(t[1..])
      case None => None
      case Some(p) => Some(([t[0]] + p.0, p.1))
  }

  /** Reads a quoted identifier from the start of `t`. */
  function ReadQuoted(t: string): Option<(string, string)>
  {
    if |t| > 0 && t[0] == Tick then ReadBody(t[1..]) else None
  }

  lemma {:induction false} ReadBodyDouble(name: string, rest: string)
    requires |rest| == 0 || rest[0] != Tick
    ensures ReadBody(Double(name) + [Tick] + rest) == Some((name, rest))
    decreases |name|
  {
    var t := Double(name) + [Tick] + rest;
    if |name| == 0 {
      assert Double(name) == "";
      assert t == [Tick] + rest;
      assert t[1..] == rest;
    } else {
      ReadBodyDouble(name[1..], rest);
      var tail := Double(name[1..]) + [Tick] + rest;
      if name[0] == Tick {
        assert t == [Tick, Tick] + tail;
        assert t[2..] == tail;
        assert [Tick] + name[1..] == name;
      } else {
        assert t == [name[0]] + tail;
        assert t[1..] == tail;
        assert [name[0]] + name[1..] == name;
      }
    }
  }

  /** Whatever text follows a quoted name (unless it starts with a backtick,
      which would glue onto the closing one), a reader recovers exactly the
      name and exactly the following text: the name cannot end the quoting
      early. */
  lemma ReadEscaped(name: string, rest: string)
    requires |rest| == 0 || rest[0] != Tick
    ensures ReadQuoted(Escape(name) + rest) == Some((name, rest))
  {
    var t := Escape(name) + rest;
    assert t[1..] == Double(name) + [Tick] + rest;
    ReadBodyDouble(name, rest);
  }

  /** Quoting is injective: distinct names never produce the same SQL text. */
  lemma EscapeInjective(a: string, b: string)
    requires Escape(a) == Escape(b)
    ensures a == b
  {
    ReadEscaped(a, "");
    ReadEscaped(b, "");
    assert Escape(a) + "" == Escape(a);
    assert Escape(b) + "" == Escape(b);
  }

  /** A maximal run of backticks in `t` from `i` (inclusive) to `j` (exclusive). */
  predicate TickRun(t: string, i: int, j: int) {
    && 0 <= i < j <= |t|
    && (forall k | i <= k < j :: t[k] == Tick)
    && (i == 0 || t[i - 1] != Tick)
    && (j == |t| || t[j] != Tick)
  }

  lemma {:induction false} PairedRunsEven(t: string, i: int, j: int)
    requires Paired(t) && TickRun(t, i, j)
    ensures (j - i) % 2 == 0
    decreases |t|
  {
    if t[0] != Tick {
      assert i > 0;
      assert TickRun(t[1..], i - 1, j - 1);
      PairedRunsEven(t[1..], i - 1, j - 1);
    } else if i == 0 {
      if j == 2 {
      } else {
        assert j > 2;
        assert TickRun(t[2..], 0, j - 2);
        PairedRunsEven(t[2..], 0, j - 2);
      }
    } else {
      assert i >= 2;
      assert TickRun(t[2..], i - 2, j - 2);
      PairedRunsEven(t[2..], i - 2, j - 2);
    }
  }

  /** Inside a quoted name, every run of backticks has even length. */
  lemma EscapeInteriorRunsEven(name: string, i: int, j: int)
    requires TickRun(Escape(name)[1..|Escape(name)| - 1], i, j)
    ensures (j - i) % 2 == 0
  {
    var e := Escape(name);
    EscapeShape(name);
    PairedRunsEven(e[1..|e| - 1], i, j);
  }

  /** escapeIdentifierSlice: quotes every name, in order. */
  method EscapeAll(names: seq<string>) returns (result: seq<string>)
    ensures |result| == |names|
    ensures forall i | 0 <= i < |names| :: result[i] == Escape(names[i])
    ensures forall i | 0 <= i < |names| :: ReadQuoted(result[i]) == Some((names[i], ""))
  {
    result := [];
    var i := 0;
    while i < |names|
      invariant 0 <= i <= |names|
      invariant |result| == i
      invariant forall k | 0 <= k < i :: result[k] == Escape(names[k])
    {
      result := result + [Escape(names[i])];
      i := i + 1;
    }
    forall k | 0 <= k < |names|
      ensures ReadQuoted(result[k]) == Some((names[k], ""))
    {
      ReadEscaped(names[k], "");
      assert Escape(names[k]) + "" == Escape(names[k]);
    }
  }
}
