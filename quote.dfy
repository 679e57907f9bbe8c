/**
 * PosixRegexp.quote / PosixRegexp.escape (src/quote.c), ported from Ruby's
 * rb_reg_quote(): every byte that means something in a POSIX extended
 * pattern, and the whitespace bytes, are escaped with a backslash; all other
 * bytes, including those of multi-byte characters, are copied.
 */
module Quote {
  import opened Wrappers

  newtype byte = x: int | 0 <= x < 256

  const BACKSLASH: byte := '\\' as byte
  const SPACE: byte := ' ' as byte
  const TAB: byte := 9
  const LF: byte := 10
  const VT: byte := 11
  const FF: byte := 12
  const CR: byte := 13

  /** The sixteen bytes escaped as a backslash followed by themselves. */
  const Meta: set<byte> := {
    '[' as byte, ']' as byte, '{' as byte, '}' as byte,
    '(' as byte, ')' as byte, '|' as byte, '-' as byte,
    '*' as byte, '.' as byte, '\\' as byte,
    '?' as byte, '+' as byte, '^' as byte, '$' as byte,
    '#' as byte}

  /** The control bytes escaped as a backslash followed by a letter. */
  const ControlLetter: map<byte, byte> := map[
    TAB := 't' as byte, LF := 'n' as byte, CR := 'r' as byte,
    FF := 'f' as byte, VT := 'v' as byte]

  /** Bytes that the quoter changes. */
  predicate NeedsEscape(b: byte) {
    b in Meta || b == SPACE || b in ControlLetter
  }

  /** The byte an escape letter stands for when read back. */
  function Unescaped(c: byte): byte {
    if c == 't' as byte then TAB
    else if c == 'n' as byte then LF
    else if c == 'r' as byte then CR
    else if c == 'f' as byte then FF
    else if c == 'v' as byte then VT
    else c
  }

  /** What the quoter emits for one input byte. */
  function Escape(b: byte): seq<byte> {
    if b in Meta then [BACKSLASH, b]
    else if b == SPACE then [BACKSLASH, SPACE]
    else if b in ControlLetter then [BACKSLASH, ControlLetter[b]]
    else [b]
  }

  /** A byte that needs escaping becomes a backslash and a byte that reads
      back as it; any other byte is copied. */
  lemma EscapeMeaning(b: byte)
    ensures |Escape(b)| == (if NeedsEscape(b) then 2 else 1)
    ensures !NeedsEscape(b) ==> Escape(b) == [b]
    ensures NeedsEscape(b) ==> Escape(b)[0] == BACKSLASH && Unescaped(Escape(b)[1]) == b
    ensures b in Meta || b == SPACE ==> Escape(b)[1] == b
  {
  }

  /** The quoted form of a byte string: each byte escaped on its own, left to
      right. */
  function Quoted(s: seq<byte>): seq<byte>
    decreases |s|
  {
    if s == [] then [] else Escape(s[0]) + Quoted(s[1..])
  }

  /** Quoting is compositional. */
  lemma {:induction false} QuotedAppend(a: seq<byte>, b: seq<byte>)
    ensures Quoted(a + b) == Quoted(a) + Quoted(b)
    decreases |a|
  {
    if a == [] {
      assert a + b == b;
    } else {
      assert (a + b)[1..] == a[1..] + b;
      QuotedAppend(a[1..], b);
    }
  }

  /** Quoting one more byte of str appends that byte's escape. */
  lemma QuotedSnoc(str: seq<byte>, s: nat)
    requires s < |str|
    ensures Quoted(str[..s + 1]) == Quoted(str[..s]) + Escape(str[s])
  {
    assert str[..s + 1] == str[..s] + [str[s]];
    QuotedAppend(str[..s], [str[s]]);
    assert Quoted([str[s]]) == Escape(str[s]) + Quoted([]);
  }

  /** The quoted form is at least as long as the input and at most twice as
      long; it equals the input exactly when nothing needs escaping. */
  lemma {:induction false} QuotedLength(s: seq<byte>)
    ensures |s| <= |Quoted(s)| <= 2 * |s|
    ensures Quoted(s) == s <==> forall k :: 0 <= k < |s| ==> !NeedsEscape(s[k])
    decreases |s|
  {
    if s != [] {
      QuotedLength(s[1..]);
      EscapeMeaning(s[0]);
      if forall k :: 0 <= k < |s| ==> !NeedsEscape(s[k]) {
        assert !NeedsEscape(s[0]);
        assert forall k :: 0 <= k < |s[1..]| ==> !NeedsEscape(s[1..][k]) by {
          forall k | 0 <= k < |s[1..]| ensures !NeedsEscape(s[1..][k]) {
            assert s[1..][k] == s[k + 1];
          }
        }
        assert s == [s[0]] + s[1..];
      } else {
        var k :| 0 <= k < |s| && NeedsEscape(s[k]);
        if k == 0 {
          assert |Quoted(s)| > |s|;
        } else {
          assert NeedsEscape(s[1..][k - 1]);
        }
      }
    }
  }

  /** Reading a quoted string back: a backslash and the byte after it stand
      for that byte, with t, n, r, f and v standing for the control bytes; a
      trailing lone backslash is malformed. */
  function Unquote(q: seq<byte>): Option<seq<byte>>
    decreases |q|
  {
    if q == [] then Some([])
    else if q[0] == BACKSLASH then
      if |q| == 1 then None
      else
        match Unquote(q[2..])
        case None => None
        case Some(u) => Some([Unescaped(q[1])] + u)
    else
      match Unquote(q[1..])
      case None => None
      case Some(u) => Some([q[0]] + u)
  }

  /** Quoting is reversible. */
  lemma {:induction false} UnquoteQuoted(s: seq<byte>)
    ensures Unquote(Quoted(s)) == Some(s)
    decreases |s|
  {
    if s != [] {
      UnquoteQuoted(s[1..]);
      EscapeMeaning(s[0]);
      var e, rest := Escape(s[0]), Quoted(s[1..]);
      assert Quoted(s) == e + rest;
      if NeedsEscape(s[0]) {
        assert (e + rest)[2..] == rest;
      } else {
        assert (e + rest)[1..] == rest;
      }
      assert s == [s[0]] + s[1..];
    }
  }

  /** *t = b; t += 1: write one byte at the cursor and move past it. */
  method Put(buf: array<byte>, t: nat, b: byte) returns (next: nat)
    requires t < buf.Length
    modifies buf
    ensures next == t + 1
    ensures buf[..next] == old(buf[..t]) + [b]
  {
    buf[t] := b;
    next := t + 1;
  }

  /** mrb_posixregexp_quote on a String: copy the input, size the copy to
      twice the input length, write the quoted bytes through a cursor, and
      cut the copy down to what was written. */
  method QuoteBytes(str: seq<byte>) returns (r: seq<byte>)
    ensures r == Quoted(str)
    ensures |str| <= |r| <= 2 * |str|
  {
    var tmp := new byte[2 * |str|];
    var s, t := 0, 0;
    while s < |str|
      invariant 0 <= s <= |str|
      invariant s <= t <= 2 * s
      invariant tmp[..t] == Quoted(str[..s])
    {
      QuotedSnoc(str, s);
      t := QuoteByte(tmp, t, str[s]);
      s := s + 1;
    }
    assert str[..s] == str;
    QuotedLength(str);
    r := tmp[..t];
  }

  /** One turn of the switch in mrb_posixregexp_quote: write the escape of
      byte c at the cursor t and return the cursor after it. */
  method QuoteByte(tmp: array<byte>, t: nat, c: byte) returns (next: nat)
    requires t + 2 <= tmp.Length
    modifies tmp
    ensures next == t + |Escape(c)| && t + 1 <= next <= t + 2
    ensures tmp[..next] == old(tmp[..t]) + Escape(c)
  {
    ghost var done := tmp[..t];
    next := t;
    if c in Meta {
      next := Put(tmp, next, BACKSLASH);
    } else if c == SPACE {
      next := Put(tmp, next, BACKSLASH);
      next := Put(tmp, next, SPACE);
      assert tmp[..next] == done + [BACKSLASH] + [SPACE];
      return;
    } else if c in ControlLetter {
      next := Put(tmp, next, BACKSLASH);
      next := Put(tmp, next, ControlLetter[c]);
      assert tmp[..next] == done + [BACKSLASH] + [ControlLetter[c]];
      return;
    }
    next := Put(tmp, next, c);
    if c in Meta {
      assert tmp[..next] == done + [BACKSLASH] + [c];
    }
  }
}
