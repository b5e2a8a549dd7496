/** NUL-terminated byte strings, and the two C library functions the symbol test is written
    with. `Strlen` and `Strcmp` follow the C standard (sections 7.24.6.3 and 7.24.4.2 of C11);
    they index a buffer the way the C code steps a `char *`. */
module CStrings {

  type Byte = b: nat | b < 256

  /** Some byte at or after `at` is NUL, so a C string starts at `at`. */
  predicate Terminated(buf: seq<Byte>, at: nat)
    decreases |buf| - at
  {
    at < |buf| && (buf[at] == 0 || Terminated(buf, at + 1))
  }

  /** A buffer a `const char *` may point to. */
  type CBuffer = buf: seq<Byte> | Terminated(buf, 0) witness [0]

  /** The bytes of the C string that starts at `at`, without its NUL. */
  function CStringAt(buf: seq<Byte>, at: nat): seq<Byte>
    requires Terminated(buf, at)
    decreases |buf| - at
  {
    if buf[at] == 0 then [] else [buf[at]] + CStringAt(buf, at + 1)
  }

  function Strlen(buf: seq<Byte>, at: nat): nat
    requires Terminated(buf, at)
    decreases |buf| - at
  {
    if buf[at] == 0 then 0 else 1 + Strlen(buf, at + 1)
  }

  function Strcmp(a: seq<Byte>, i: nat, b: seq<Byte>, j: nat): int
    requires Terminated(a, i) && Terminated(b, j)
    decreases |a| - i
  {
    if a[i] != b[j] then a[i] - b[j]
    else if a[i] == 0 then 0
    else Strcmp(a, i + 1, b, j + 1)
  }

  /** The string ends at the first NUL. */
  predicate EndsAt(buf: seq<Byte>, at: nat, end: nat)
  {
    at <= end < |buf| && buf[end] == 0 && forall k :: at <= k < end ==> buf[k] != 0
  }

  lemma {:induction false} CStringExact(buf: seq<Byte>, at: nat, end: nat)
    requires EndsAt(buf, at, end)
    ensures Terminated(buf, at) && CStringAt(buf, at) == buf[at..end]
    decreases end - at
  {
    if at < end {
      CStringExact(buf, at + 1, end);
      assert buf[at..end] == [buf[at]] + buf[at + 1..end];
    }
  }

  lemma {:induction false} FindEnd(buf: seq<Byte>, at: nat) returns (end: nat)
    requires Terminated(buf, at)
    ensures EndsAt(buf, at, end)
    decreases |buf| - at
  {
    if buf[at] == 0 {
      end := at;
    } else {
      end := FindEnd(buf, at + 1);
    }
  }

  /** What a C string is, and that buffers without one are not terminated. */
  lemma CStringsEndAtNul(buf: seq<Byte>, at: nat)
    ensures Terminated(buf, at) <==> exists k :: at <= k < |buf| && buf[k] == 0
    ensures Terminated(buf, at) ==>
      exists end :: at <= end < |buf| && buf[end] == 0 && CStringAt(buf, at) == buf[at..end] && 0 !in buf[at..end]
  {
    if Terminated(buf, at) {
      var end := FindEnd(buf, at);
      CStringExact(buf, at, end);
    }
    if k :| at <= k < |buf| && buf[k] == 0 {
      NulTerminates(buf, at, k);
    }
  }

  lemma {:induction false} NulTerminates(buf: seq<Byte>, at: nat, k: nat)
    requires at <= k < |buf| && buf[k] == 0
    ensures Terminated(buf, at)
    decreases k - at
  {
    if at < k {
      NulTerminates(buf, at + 1, k);
    }
  }

  lemma {:induction false} StrlenIsLength(buf: seq<Byte>, at: nat)
    requires Terminated(buf, at)
    ensures Strlen(buf, at) == |CStringAt(buf, at)|
    decreases |buf| - at
  {
    if buf[at] != 0 {
      StrlenIsLength(buf, at + 1);
    }
  }

  lemma {:induction false} StrcmpIsEquality(a: seq<Byte>, i: nat, b: seq<Byte>, j: nat)
    requires Terminated(a, i) && Terminated(b, j)
    ensures Strcmp(a, i, b, j) == 0 <==> CStringAt(a, i) == CStringAt(b, j)
    decreases |a| - i
  {
    var s, t := CStringAt(a, i), CStringAt(b, j);
    if a[i] != b[j] {
      assert s != t by {
        assert a[i] != 0 ==> s[0] == a[i];
        assert b[j] != 0 ==> t[0] == b[j];
      }
    } else if a[i] != 0 {
      StrcmpIsEquality(a, i + 1, b, j + 1);
      assert s[1..] == CStringAt(a, i + 1) && t[1..] == CStringAt(b, j + 1);
    }
  }
}
