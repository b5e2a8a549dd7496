/** The output stream: a buffer that is written out when it is full, or that is all there is; and the sizes
    that are computed before writing. */
module Output {
  import opened CStrings
  import opened Words
  import opened ZigZag
  import opened Varint

  /* ----- writing ----- */

  /** The exceptions are results here. */
  datatype Outcome = Done | OutOfSpace | WriteFailed

  /** `buffered` is what the buffer of `size` bytes holds. With an output, `sent` is what that has taken, and
      `answers` says how much it will take of each write to come, at most; of more writes, nothing. */
  datatype Stream = Stream(size: nat, buffered: seq<Byte>, hasOutput: bool, sent: seq<Byte>, answers: seq<nat>)
  {
    /** Buffers of streams with an output are not empty. */
    predicate Valid()
    {
      |buffered| <= size && (hasOutput ==> size > 0)
    }

    function All(): seq<Byte>
    {
      sent + buffered
    }
  }

  /** How much the output takes of a write of `n` bytes. */
  function Accepted(answers: seq<nat>, n: nat): (written: nat)
    ensures written <= n
  {
    if answers == [] then 0 else if answers[0] < n then answers[0] else n
  }

  function Later(answers: seq<nat>): seq<nat>
  {
    if answers == [] then [] else answers[1..]
  }

  function Refresh(s: Stream): (Outcome, Stream)
  {
    if !s.hasOutput then (OutOfSpace, s)
    else if s.buffered == [] then (Done, s)
    else
      var written := Accepted(s.answers, |s.buffered|);
      var t := s.(sent := s.sent + s.buffered[..written], answers := Later(s.answers));
      if written != |s.buffered| then (WriteFailed, t) else (Done, t.(buffered := []))
  }

  function PutByte(s: Stream, b: Byte): (Outcome, Stream)
  {
    var (outcome, t) := if |s.buffered| == s.size then Refresh(s) else (Done, s);
    if outcome != Done then (outcome, t) else (Done, t.(buffered := t.buffered + [b]))
  }

  function Put(s: Stream, bytes: seq<Byte>): (Outcome, Stream)
    decreases |bytes|
  {
    if bytes == [] then (Done, s)
    else
      var (outcome, t) := PutByte(s, bytes[0]);
      if outcome != Done then (outcome, t) else Put(t, bytes[1..])
  }

  /** If nothing is raised, all bytes have been taken, in order. */
  lemma {:induction false} PutKeepsOrder(s: Stream, bytes: seq<Byte>)
    requires s.Valid()
    ensures var (outcome, t) := Put(s, bytes);
      outcome == Done ==> t.Valid() && t.All() == s.All() + bytes && (s.hasOutput || t.sent == s.sent)
    decreases |bytes|
  {
    if bytes != [] {
      var (outcome, t) := PutByte(s, bytes[0]);
      if outcome == Done {
        assert t.All() == s.All() + [bytes[0]];
        PutKeepsOrder(t, bytes[1..]);
        assert s.All() + bytes == s.All() + [bytes[0]] + bytes[1..];
      }
    }
  }

  /** Into a plain buffer, writing succeeds if and only if there is space for all bytes; if not, the buffer is
      filled with the first of them. */
  lemma {:induction false} PlainBufferExactly(s: Stream, bytes: seq<Byte>)
    requires s.Valid() && !s.hasOutput
    ensures var (outcome, t) := Put(s, bytes);
      && (outcome == Done <==> |s.buffered| + |bytes| <= s.size)
      && (outcome != Done ==> outcome == OutOfSpace && t == s.(buffered := s.buffered + bytes[..s.size - |s.buffered|]))
    decreases |bytes|
  {
    if bytes != [] && |s.buffered| < s.size {
      var t := PutByte(s, bytes[0]).1;
      PlainBufferExactly(t, bytes[1..]);
      var n := s.size - |s.buffered|;
      if n <= |bytes| {
        assert bytes[..n] == [bytes[0]] + bytes[1..][..n - 1];
      }
    }
  }

  /** How often the buffer goes out when `n` more bytes are written: whenever it is full and there is another
      byte. */
  function Writes(size: nat, buffered: nat, n: nat): nat
    requires buffered <= size && size > 0
    decreases n
  {
    if n == 0 then 0
    else if buffered == size then 1 + Writes(size, 1, n - 1)
    else Writes(size, buffered + 1, n - 1)
  }

  /** What goes out leaves at least one byte, and at most a whole buffer, behind. */
  lemma {:induction false} WritesExactly(size: nat, buffered: nat, n: nat)
    requires buffered <= size && size > 0
    ensures n > 0 ==> Writes(size, buffered, n) * size < buffered + n <= (Writes(size, buffered, n) + 1) * size
    decreases n
  {
    if n > 1 {
      if buffered == size {
        WritesExactly(size, 1, n - 1);
      } else {
        WritesExactly(size, buffered + 1, n - 1);
      }
    }
  }

  /** The output takes all of the next `times` writes of `n` bytes. */
  predicate TakesAll(answers: seq<nat>, times: nat, n: nat)
  {
    times <= |answers| && forall i :: 0 <= i < times ==> answers[i] >= n
  }

  /** With an output, writing succeeds if and only if that takes all of every full buffer. */
  lemma {:induction false} OutputExactly(s: Stream, bytes: seq<Byte>)
    requires s.Valid() && s.hasOutput
    ensures var (outcome, t) := Put(s, bytes);
      && (outcome == Done <==> TakesAll(s.answers, Writes(s.size, |s.buffered|, |bytes|), s.size))
      && (outcome != Done ==> outcome == WriteFailed)
    decreases |bytes|
  {
    if bytes != [] {
      var (outcome, t) := PutByte(s, bytes[0]);
      if outcome == Done {
        OutputExactly(t, bytes[1..]);
        if |s.buffered| == s.size {
          var times := Writes(s.size, 1, |bytes| - 1);
          assert t.answers == s.answers[1..] && s.answers[0] >= s.size;
          assert TakesAll(s.answers, times + 1, s.size) <==> TakesAll(t.answers, times, s.size) by {
            assert forall i :: 0 <= i < |t.answers| ==> t.answers[i] == s.answers[i + 1];
            if TakesAll(s.answers, times + 1, s.size) {
              assert forall i :: 0 <= i < times ==> t.answers[i] == s.answers[i + 1];
            }
            if TakesAll(t.answers, times, s.size) {
              assert forall i :: 0 < i < times + 1 ==> s.answers[i] == t.answers[i - 1];
            }
          }
        }
      }
    }
  }

  /** Flushing writes out what is buffered, if there is somewhere to write it to. */
  function Flushed(s: Stream): (Outcome, Stream)
  {
    if s.hasOutput then Refresh(s) else (Done, s)
  }

  /** The buffer goes out whole or not: nothing is written of an empty one; of any other, full or not, the output
      takes what it will of all its bytes. If that is all of them the buffer is empty afterwards; if not it is kept,
      and the write fails. */
  lemma RefreshExactly(s: Stream)
    ensures !s.hasOutput ==> Refresh(s) == (OutOfSpace, s)
    ensures s.hasOutput && s.buffered == [] ==> Refresh(s) == (Done, s)
    ensures s.hasOutput && s.buffered != [] ==>
      var taken := if s.answers == [] then 0 else s.answers[0];
      var later := if s.answers == [] then [] else s.answers[1..];
      Refresh(s) ==
        if taken >= |s.buffered| then (Done, Stream(s.size, [], true, s.sent + s.buffered, later))
        else (WriteFailed, Stream(s.size, s.buffered, true, s.sent + s.buffered[..taken], later))
  {
    if s.buffered != [] {
      assert s.buffered[..|s.buffered|] == s.buffered;
    }
  }

  /** The state that putting bytes leaves, if nothing is raised. */
  lemma {:induction false} PutState(s: Stream, bytes: seq<Byte>)
    requires s.Valid() && s.hasOutput && Put(s, bytes).0 == Done
    ensures var t, times := Put(s, bytes).1, Writes(s.size, |s.buffered|, |bytes|);
      && t.hasOutput && t.size == s.size && times <= |s.answers| && t.answers == s.answers[times..]
      && |t.buffered| == |s.buffered| + |bytes| - times * s.size
    decreases |bytes|
  {
    if bytes != [] {
      var t := PutByte(s, bytes[0]).1;
      PutState(t, bytes[1..]);
      if |s.buffered| == s.size {
        OneMoreTime(Writes(s.size, 1, |bytes| - 1), s.size);
        assert t.answers == s.answers[1..];
      }
    }
  }

  lemma OneMoreTime(times: nat, size: nat)
    ensures (times + 1) * size == size + times * size
  {
  }

  /** What the output takes of write `k`, at most. */
  function Taken(answers: seq<nat>, k: nat): nat
  {
    if k < |answers| then answers[k] else 0
  }

  /** Putting bytes and then flushing, with an output: `Done` means that nothing is left in the buffer and that the
      output has taken everything, in order. That happens if and only if the output takes every full buffer, and
      then all of the rest. */
  lemma PutThenFlush(s: Stream, bytes: seq<Byte>)
    requires s.Valid() && s.hasOutput
    ensures var (first, t) := Put(s, bytes);
      var (last, u) := Flushed(t);
      var times := Writes(s.size, |s.buffered|, |bytes|);
      var rest := |s.buffered| + |bytes| - times * s.size;
      && (first == Done && last == Done ==> u.buffered == [] && u.sent == s.sent + s.buffered + bytes)
      && (first == Done && last == Done <==>
            && times <= |s.answers| && (forall i :: 0 <= i < times ==> s.answers[i] >= s.size)
            && (rest == 0 || (times < |s.answers| && s.answers[times] >= rest)))
      && (first == Done && last != Done ==>
            && last == WriteFailed && u.buffered == t.buffered && Taken(s.answers, times) < |t.buffered|
            && u.sent == t.sent + t.buffered[..Taken(s.answers, times)])
  {
    OutputExactly(s, bytes);
    PutKeepsOrder(s, bytes);
    if Put(s, bytes).0 == Done {
      PutState(s, bytes);
      RefreshExactly(Put(s, bytes).1);
    }
  }

  /** Flushing a plain buffer changes nothing. */
  lemma FlushWithoutOutput(s: Stream)
    requires !s.hasOutput
    ensures Flushed(s) == (Done, s)
  {
  }

  /** If a write fails while bytes are put, the output has taken the first so many of what was buffered and of the
      bytes: all of `k` buffers, and what it took of the next. */
  lemma {:induction false} FailedPut(s: Stream, bytes: seq<Byte>)
    requires s.Valid() && s.hasOutput && Put(s, bytes).0 != Done
    ensures exists k: nat :: FailsAt(s, bytes, Put(s, bytes).1.sent, k)
    decreases |bytes|
  {
    if |s.buffered| < s.size {
      var t := PutByte(s, bytes[0]).1;
      FailedPut(t, bytes[1..]);
      var k: nat :| FailsAt(t, bytes[1..], Put(t, bytes[1..]).1.sent, k);
      assert t.buffered + bytes[1..] == s.buffered + bytes;
      assert FailsAt(s, bytes, Put(s, bytes).1.sent, k);
    } else {
      RefreshExactly(s);
      if Refresh(s).0 == Done {
        FailedLater(s, bytes);
      } else {
        assert (s.buffered + bytes)[..Taken(s.answers, 0)] == s.buffered[..Taken(s.answers, 0)];
        assert FailsAt(s, bytes, Put(s, bytes).1.sent, 0);
      }
    }
  }

  lemma {:induction false} FailedLater(s: Stream, bytes: seq<Byte>)
    requires s.Valid() && s.hasOutput && Put(s, bytes).0 != Done && |s.buffered| == s.size && Refresh(s).0 == Done
    ensures exists k: nat :: FailsAt(s, bytes, Put(s, bytes).1.sent, k)
    decreases |bytes|, 0
  {
    var t := PutByte(s, bytes[0]).1;
    AfterFullBuffer(s, bytes[0]);
    FailedPut(t, bytes[1..]);
    var k: nat :| FailsAt(t, bytes[1..], Put(t, bytes[1..]).1.sent, k);
    assert t.buffered + bytes[1..] == bytes;
    FailsOneLater(s, t, bytes, Put(s, bytes).1.sent, k);
  }

  lemma AfterFullBuffer(s: Stream, b: Byte)
    requires s.Valid() && s.hasOutput && |s.buffered| == s.size && Refresh(s).0 == Done
    ensures s.answers != [] && s.answers[0] >= s.size
    ensures PutByte(s, b) == (Done, Stream(s.size, [b], true, s.sent + s.buffered, s.answers[1..]))
  {
    RefreshExactly(s);
    assert [] + [b] == [b];
  }

  lemma FailsOneLater(s: Stream, t: Stream, bytes: seq<Byte>, received: seq<Byte>, k: nat)
    requires bytes != [] && FailsAt(t, bytes[1..], received, k)
    requires t.buffered + bytes[1..] == bytes && t.size == s.size == |s.buffered| && t.sent == s.sent + s.buffered
    requires s.answers != [] && s.answers[0] >= s.size && t.answers == s.answers[1..]
    ensures FailsAt(s, bytes, received, k + 1)
  {
    OneMoreTime(k, s.size);
    OneMoreAnswer(s.answers, k, s.size);
    SentMore(received, s.sent, s.buffered, bytes, k * s.size + Taken(t.answers, k));
  }

  lemma OneMoreAnswer(answers: seq<nat>, k: nat, n: nat)
    requires answers != [] && answers[0] >= n && TakesAll(answers[1..], k, n)
    ensures TakesAll(answers, k + 1, n) && Taken(answers, k + 1) == Taken(answers[1..], k)
  {
    forall i | 0 <= i < k + 1 ensures answers[i] >= n {
      if i > 0 {
        assert answers[1..][i - 1] >= n;
      }
    }
  }

  /** `received` is `sent` and the first `n` of these bytes. */
  predicate SentFirst(received: seq<Byte>, sent: seq<Byte>, bytes: seq<Byte>, n: nat)
  {
    n <= |bytes| && received == sent + bytes[..n]
  }

  lemma SentMore(received: seq<Byte>, sent: seq<Byte>, a: seq<Byte>, b: seq<Byte>, n: nat)
    requires SentFirst(received, sent + a, b, n)
    ensures SentFirst(received, sent, a + b, |a| + n)
  {
    assert (a + b)[..|a| + n] == a + b[..n];
  }

  /** The output takes `k` full buffers, but not the next, and `received` is what it has then. */
  predicate FailsAt(s: Stream, bytes: seq<Byte>, received: seq<Byte>, k: nat)
  {
    && TakesAll(s.answers, k, s.size) && Taken(s.answers, k) < s.size
    && SentFirst(received, s.sent, s.buffered + bytes, k * s.size + Taken(s.answers, k))
  }

  lemma PutFirst(s: Stream, n: nat)
    ensures Put(s, Groups(n)) ==
      if n < 128 then PutByte(s, n)
      else
        var (outcome, t) := PutByte(s, n % 128 + 128);
        if outcome != Done then (outcome, t) else Put(t, Groups(n / 128))
  {
    assert Groups(n) == if n < 128 then [n] else [n % 128 + 128] + Groups(n / 128);
    if n < 128 {
      assert Put(PutByte(s, n).1, []) == (Done, PutByte(s, n).1);
      assert [n][1..] == [];
    }
  }

  /** Where the buffer is written to. */
  class Sink {
    var received: seq<Byte>
    var answers: seq<nat>

    constructor (answers: seq<nat>)
      ensures received == [] && this.answers == answers
    {
      received := [];
      this.answers := answers;
    }

    method Write(bytes: seq<Byte>) returns (written: nat)
      modifies this
      ensures written == Accepted(old(answers), |bytes|) && answers == Later(old(answers))
      ensures received == old(received) + bytes[..written]
    {
      written := Accepted(answers, |bytes|);
      answers := Later(answers);
      received := received + bytes[..written];
    }
  }

  class OutputStream {
    const buffer: array<Byte>
    var position: nat
    const output: Sink?

    ghost predicate Valid()
      reads this
    {
      position <= buffer.Length && (output != null ==> buffer.Length > 0)
    }

    ghost function View(): Stream
      requires Valid()
      reads this, buffer, output
    {
      Stream(buffer.Length, buffer[..position], output != null,
             if output == null then [] else output.received, if output == null then [] else output.answers)
    }

    constructor (output: Sink?, buffer: array<Byte>)
      requires output != null ==> buffer.Length > 0
      ensures this.output == output && this.buffer == buffer && Valid() && View().buffered == []
    {
      this.output := output;
      this.buffer := buffer;
      this.position := 0;
    }

    method RefreshBuffer() returns (outcome: Outcome)
      requires Valid()
      modifies this`position, output
      ensures Valid() && (outcome, View()) == Refresh(old(View()))
    {
      if output == null {
        return OutOfSpace;
      }
      if position != 0 {
        assert buffer[..position][..position] == buffer[..position] && buffer[..0] == [];
        var written := output.Write(buffer[..position]);
        if written != position {
          return WriteFailed;
        }
        position := 0;
      }
      return Done;
    }

    method Flush() returns (outcome: Outcome)
      requires Valid()
      modifies this`position, output
      ensures Valid() && (outcome, View()) == Flushed(old(View()))
    {
      outcome := Done;
      if output != null {
        outcome := RefreshBuffer();
      }
    }

    method WriteRawByte(value: Byte) returns (outcome: Outcome)
      requires Valid()
      modifies this`position, buffer, output
      ensures Valid() && (outcome, View()) == PutByte(old(View()), value)
    {
      if position == buffer.Length {
        outcome := RefreshBuffer();
        if outcome != Done {
          return;
        }
      }
      buffer[position] := value;
      position := position + 1;
      assert buffer[..position] == buffer[..position - 1] + [value];
      return Done;
    }

    method WriteRawVarint64(value: bv64) returns (outcome: Outcome)
      requires Valid()
      modifies this`position, buffer, output
      ensures Valid() && (outcome, View()) == Put(old(View()), Groups(Value(value)))
    {
      var rest := value;
      while true
        invariant Valid() && Put(old(View()), Groups(Value(value))) == Put(View(), Groups(Value(rest)))
        decreases Value(rest)
      {
        GroupOfWord(rest);
        PutFirst(View(), Value(rest));
        if Fits(rest) {
          outcome := WriteRawByte(Value(rest));
          return;
        }
        outcome := WriteRawByte(Value(Continued(rest)));
        if outcome != Done {
          return;
        }
        rest := LogicalRightShift64(rest, 7);
      }
    }

    method WriteRawVarint32(value: bv32) returns (outcome: Outcome)
      requires Valid()
      modifies this`position, buffer, output
      ensures Valid() && (outcome, View()) == Put(old(View()), Groups(Unsigned32(value)))
    {
      var rest := value;
      while true
        invariant Valid() && Put(old(View()), Groups(Unsigned32(value))) == Put(View(), Groups(Unsigned32(rest)))
        decreases Unsigned32(rest)
      {
        GroupOfWord32(rest);
        PutFirst(View(), Unsigned32(rest));
        if Fits32(rest) {
          outcome := WriteRawByte(Unsigned32(rest));
          return;
        }
        outcome := WriteRawByte(Unsigned32(Continued32(rest)));
        if outcome != Done {
          return;
        }
        rest := LogicalRightShift32(rest, 7);
      }
    }

    /** A negative int32 is sign-extended first. */
    method WriteInt32NoTag(value: bv32) returns (outcome: Outcome)
      requires Valid()
      modifies this`position, buffer, output
      ensures Valid() && (outcome, View()) == Put(old(View()), Groups(Value(SignExtend(value))))
    {
      if value < SIGN32 {
        outcome := WriteRawVarint32(value);
      } else {
        outcome := WriteRawVarint64(SignExtend(value));
      }
    }

    method WriteSInt32NoTag(value: bv32) returns (outcome: Outcome)
      requires Valid()
      modifies this`position, buffer, output
      ensures Valid() && (outcome, View()) == Put(old(View()), Groups(Zig(Signed32(value))))
    {
      Encode32IsArithmetic(value);
      outcome := WriteRawVarint32(EncodeZigZag32(value));
    }

    method WriteSInt64NoTag(value: bv64) returns (outcome: Outcome)
      requires Valid()
      modifies this`position, buffer, output
      ensures Valid() && (outcome, View()) == Put(old(View()), Groups(Zig(Signed64(value))))
    {
      Encode64IsArithmetic(value);
      outcome := WriteRawVarint64(EncodeZigZag64(value));
    }
  }

  /* ----- sizes computed before writing ----- */

  predicate Clear32(value: bv32, mask: bv32)
  {
    value & mask == 0
  }

  predicate Clear64(value: bv64, mask: bv64)
  {
    value & mask == 0
  }

  /** The masks are 0xffffffff shifted left by 7, 14, 21 and 28, or the like with 64 bits. */
  function RawVarint32Size(value: bv32): nat
  {
    if Clear32(value, 0xFFFF_FF80) then 1
    else if Clear32(value, 0xFFFF_C000) then 2
    else if Clear32(value, 0xFFE0_0000) then 3
    else if Clear32(value, 0xF000_0000) then 4
    else 5
  }

  function RawVarint64Size(value: bv64): nat
  {
    if Clear64(value, 0xFFFF_FFFF_FFFF_FF80) then 1
    else if Clear64(value, 0xFFFF_FFFF_FFFF_C000) then 2
    else if Clear64(value, 0xFFFF_FFFF_FFE0_0000) then 3
    else if Clear64(value, 0xFFFF_FFFF_F000_0000) then 4
    else RawVarint64SizeFrom5(value)
  }

  function RawVarint64SizeFrom5(value: bv64): nat
  {
    if Clear64(value, 0xFFFF_FFF8_0000_0000) then 5
    else if Clear64(value, 0xFFFF_FC00_0000_0000) then 6
    else if Clear64(value, 0xFFFE_0000_0000_0000) then 7
    else if Clear64(value, 0xFF00_0000_0000_0000) then 8
    else if Clear64(value, 0x8000_0000_0000_0000) then 9
    else 10
  }

  function Int32SizeNoTag(value: bv32): nat
  {
    if value < SIGN32 then RawVarint32Size(value) else 10
  }

  /* ----- each mask tests for a number of groups ----- */

  /** One group more is enough for the word than for what is left without the first. */
  lemma GroupsOfRest(w: bv64, k: nat)
    requires k >= 1
    ensures |Groups(Value(w))| <= k + 1 <==> |Groups(Value(SevenRight(w)))| <= k
  {
    RestOfWord(w);
  }

  lemma Mask7(w: bv64)
    ensures Clear64(w, 0xFFFF_FFFF_FFFF_FF80) <==> Fits(w)
  {
  }

  lemma OneGroup(w: bv64)
    ensures Clear64(w, 0xFFFF_FFFF_FFFF_FF80) <==> |Groups(Value(w))| <= 1
  {
    Mask7(w);
    GroupOfWord(w);
    if Value(w) >= 128 { GroupsSpell(Value(w) / 128); }
  }

  lemma Mask14(w: bv64)
    ensures Clear64(w, 0xFFFF_FFFF_FFFF_C000) <==> Clear64(SevenRight(w), 0xFFFF_FFFF_FFFF_FF80)
  {
  }

  lemma TwoGroups(w: bv64)
    ensures Clear64(w, 0xFFFF_FFFF_FFFF_C000) <==> |Groups(Value(w))| <= 2
  {
    Mask14(w);
    OneGroup(SevenRight(w));
    GroupsOfRest(w, 1);
  }

  lemma Mask21(w: bv64)
    ensures Clear64(w, 0xFFFF_FFFF_FFE0_0000) <==> Clear64(SevenRight(w), 0xFFFF_FFFF_FFFF_C000)
  {
  }

  lemma ThreeGroups(w: bv64)
    ensures Clear64(w, 0xFFFF_FFFF_FFE0_0000) <==> |Groups(Value(w))| <= 3
  {
    Mask21(w);
    TwoGroups(SevenRight(w));
    GroupsOfRest(w, 2);
  }

  lemma Mask28(w: bv64)
    ensures Clear64(w, 0xFFFF_FFFF_F000_0000) <==> Clear64(SevenRight(w), 0xFFFF_FFFF_FFE0_0000)
  {
  }

  lemma FourGroups(w: bv64)
    ensures Clear64(w, 0xFFFF_FFFF_F000_0000) <==> |Groups(Value(w))| <= 4
  {
    Mask28(w);
    ThreeGroups(SevenRight(w));
    GroupsOfRest(w, 3);
  }

  lemma Mask35(w: bv64)
    ensures Clear64(w, 0xFFFF_FFF8_0000_0000) <==> Clear64(SevenRight(w), 0xFFFF_FFFF_F000_0000)
  {
  }

  lemma FiveGroups(w: bv64)
    ensures Clear64(w, 0xFFFF_FFF8_0000_0000) <==> |Groups(Value(w))| <= 5
  {
    Mask35(w);
    FourGroups(SevenRight(w));
    GroupsOfRest(w, 4);
  }

  lemma Mask42(w: bv64)
    ensures Clear64(w, 0xFFFF_FC00_0000_0000) <==> Clear64(SevenRight(w), 0xFFFF_FFF8_0000_0000)
  {
  }

  lemma SixGroups(w: bv64)
    ensures Clear64(w, 0xFFFF_FC00_0000_0000) <==> |Groups(Value(w))| <= 6
  {
    Mask42(w);
    FiveGroups(SevenRight(w));
    GroupsOfRest(w, 5);
  }

  lemma Mask49(w: bv64)
    ensures Clear64(w, 0xFFFE_0000_0000_0000) <==> Clear64(SevenRight(w), 0xFFFF_FC00_0000_0000)
  {
  }

  lemma SevenGroups(w: bv64)
    ensures Clear64(w, 0xFFFE_0000_0000_0000) <==> |Groups(Value(w))| <= 7
  {
    Mask49(w);
    SixGroups(SevenRight(w));
    GroupsOfRest(w, 6);
  }

  lemma Mask56(w: bv64)
    ensures Clear64(w, 0xFF00_0000_0000_0000) <==> Clear64(SevenRight(w), 0xFFFE_0000_0000_0000)
  {
  }

  lemma EightGroups(w: bv64)
    ensures Clear64(w, 0xFF00_0000_0000_0000) <==> |Groups(Value(w))| <= 8
  {
    Mask56(w);
    SevenGroups(SevenRight(w));
    GroupsOfRest(w, 7);
  }

  lemma Mask63(w: bv64)
    ensures Clear64(w, 0x8000_0000_0000_0000) <==> Clear64(SevenRight(w), 0xFF00_0000_0000_0000)
  {
  }

  lemma NineGroups(w: bv64)
    ensures Clear64(w, 0x8000_0000_0000_0000) <==> |Groups(Value(w))| <= 9
  {
    Mask63(w);
    EightGroups(SevenRight(w));
    GroupsOfRest(w, 8);
  }

  lemma AtMostTenGroups(w: bv64)
    ensures 1 <= |Groups(Value(w))| <= 10
  {
    Pow128Values();
    Bounds64(w);
    GroupCount(Value(w), 10);
    GroupsSpell(Value(w));
  }

  lemma SizeFrom5Exact(w: bv64)
    requires |Groups(Value(w))| > 4
    ensures RawVarint64SizeFrom5(w) == |Groups(Value(w))|
  {
    FiveGroups(w);
    SixGroups(w);
    SevenGroups(w);
    EightGroups(w);
    NineGroups(w);
    AtMostTenGroups(w);
  }

  /** The computed size is the number of bytes that are written. */
  lemma RawVarint64SizeExact(w: bv64)
    ensures RawVarint64Size(w) == |Groups(Value(w))|
  {
    OneGroup(w);
    TwoGroups(w);
    ThreeGroups(w);
    FourGroups(w);
    AtMostTenGroups(w);
    if |Groups(Value(w))| > 4 {
      SizeFrom5Exact(w);
    }
  }

  lemma Widened7(v: bv32)
    ensures Clear32(v, 0xFFFF_FF80) <==> Clear64(Widen(v), 0xFFFF_FFFF_FFFF_FF80)
  {
  }

  lemma Widened14(v: bv32)
    ensures Clear32(v, 0xFFFF_C000) <==> Clear64(Widen(v), 0xFFFF_FFFF_FFFF_C000)
  {
  }

  lemma Widened21(v: bv32)
    ensures Clear32(v, 0xFFE0_0000) <==> Clear64(Widen(v), 0xFFFF_FFFF_FFE0_0000)
  {
  }

  lemma Widened28(v: bv32)
    ensures Clear32(v, 0xF000_0000) <==> Clear64(Widen(v), 0xFFFF_FFFF_F000_0000)
  {
  }

  lemma RawVarint32SizeExact(v: bv32)
    ensures RawVarint32Size(v) == |Groups(Unsigned32(v))|
  {
    Widened7(v);
    Widened14(v);
    Widened21(v);
    Widened28(v);
    OneGroup(Widen(v));
    TwoGroups(Widen(v));
    ThreeGroups(Widen(v));
    FourGroups(Widen(v));
    AtMostTenGroups(Widen(v));
    Pow128Values();
    Bounds32(v);
    GroupCount(Unsigned32(v), 5);
  }

  function SInt32SizeNoTag(value: bv32): nat
  {
    RawVarint32Size(EncodeZigZag32(value))
  }

  function SInt64SizeNoTag(value: bv64): nat
  {
    RawVarint64Size(EncodeZigZag64(value))
  }

  /** Every computed size is what the writer of the same name puts out. */
  lemma SizesAreExact(n: bv32, m: bv64)
    ensures Int32SizeNoTag(n) == |Groups(Value(SignExtend(n)))|
    ensures SInt32SizeNoTag(n) == |Groups(Zig(Signed32(n)))|
    ensures SInt64SizeNoTag(m) == |Groups(Zig(Signed64(m)))|
  {
    Int32Size(n);
    ExtensionBits(n);
    RawVarint32SizeExact(n);
    RawVarint32SizeExact(EncodeZigZag32(n));
    Encode32IsArithmetic(n);
    RawVarint64SizeExact(EncodeZigZag64(m));
    Encode64IsArithmetic(m);
  }

  /** So integers can be written to a plain buffer without running out of space if and only if their computed
      sizes fit in what is left of it. */
  lemma ComputedSizesSuffice(s: Stream, n: bv32, m: bv64)
    requires s.Valid() && !s.hasOutput
    ensures Put(s, Groups(Value(SignExtend(n)))).0 == Done <==> |s.buffered| + Int32SizeNoTag(n) <= s.size
    ensures Put(s, Groups(Zig(Signed32(n)))).0 == Done <==> |s.buffered| + SInt32SizeNoTag(n) <= s.size
    ensures Put(s, Groups(Zig(Signed64(m)))).0 == Done <==> |s.buffered| + SInt64SizeNoTag(m) <= s.size
  {
    SizesAreExact(n, m);
    PlainBufferExactly(s, Groups(Value(SignExtend(n))));
    PlainBufferExactly(s, Groups(Zig(Signed32(n))));
    PlainBufferExactly(s, Groups(Zig(Signed64(m))));
  }
}
