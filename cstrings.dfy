/**
 * NUL-terminated character buffers and snprintf-style bounded formatting,
 * shared by the validator's diagnostics and the capability-name formatter.
 */
module CStrings {
  /**
   * The buffer after snprintf(buf + at, len, "%s", msg): a zero length leaves
   * it alone; otherwise at most len-1 characters of msg are written at `at`,
   * followed by a NUL, and nothing at or past at + len changes.
   */
  function FormattedAt(buf: seq<char>, at: nat, len: nat, msg: string): (r: seq<char>)
    requires at + len <= |buf|
    ensures |r| == |buf|
  {
    if len == 0 then buf
    else
      var k := if |msg| < len - 1 then |msg| else len - 1;
      buf[..at] + msg[..k] + ['\0'] + buf[at + k + 1..]
  }

  /** snprintf into the start of the buffer. */
  function Formatted(buf: seq<char>, len: nat, msg: string): (r: seq<char>)
    requires len <= |buf|
    ensures |r| == |buf|
  {
    FormattedAt(buf, 0, len, msg)
  }

  /** The C string held by a buffer: everything before the first NUL. */
  function CString(s: seq<char>): seq<char>
  {
    if s == [] || s[0] == '\0' then [] else [s[0]] + CString(s[1..])
  }

  lemma {:induction false} CStringOfTerminated(t: seq<char>, rest: seq<char>)
    requires '\0' !in t
    ensures CString(t + ['\0'] + rest) == t
  {
    if t != [] {
      assert (t + ['\0'] + rest)[1..] == t[1..] + ['\0'] + rest;
      CStringOfTerminated(t[1..], rest);
    }
  }

  /**
   * What a reader of the buffer sees after snprintf: the message truncated to
   * len-1 characters, and the characters at index len and beyond untouched.
   */
  lemma FormattedReadBack(buf: seq<char>, len: nat, msg: string)
    requires 0 < len <= |buf| && '\0' !in msg
    ensures Formatted(buf, len, msg)[len..] == buf[len..]
    ensures CString(Formatted(buf, len, msg)) == if |msg| < len then msg else msg[..len - 1]
  {
    var k := if |msg| < len - 1 then |msg| else len - 1;
    assert '\0' !in msg[..k] by {
      assert forall c :: c in msg[..k] ==> c in msg;
    }
    assert Formatted(buf, len, msg) == msg[..k] + ['\0'] + buf[k + 1..];
    CStringOfTerminated(msg[..k], buf[k + 1..]);
    assert |msg| < len ==> msg[..k] == msg;
  }

  /**
   * snprintf(buf + at, len, "%s", msg): writes as FormattedAt says and returns
   * the length the whole message would have taken.
   */
  method Snprintf(buf: array<char>, at: nat, len: nat, msg: string) returns (n: nat)
    requires at + len <= buf.Length
    modifies buf
    ensures n == |msg|
    ensures buf[..] == FormattedAt(old(buf[..]), at, len, msg)
  {
    n := |msg|;
    if len == 0 {
      return;
    }
    var k := if |msg| < len - 1 then |msg| else len - 1;
    var i := 0;
    while i < k
      invariant 0 <= i <= k
      invariant forall j :: 0 <= j < buf.Length ==> buf[j] == if at <= j < at + i then msg[j - at] else old(buf[j])
    {
      buf[at + i] := msg[i];
      i := i + 1;
    }
    buf[at + k] := '\0';
    ghost var r := FormattedAt(old(buf[..]), at, len, msg);
    forall j | 0 <= j < buf.Length
      ensures buf[j] == r[j]
    {
      if j < at {
      } else if j < at + k {
        assert r[j] == msg[..k][j - at];
      } else if j > at + k {
        assert r[j] == old(buf[..])[j];
      }
    }
    assert buf[..] == r;
  }
}
