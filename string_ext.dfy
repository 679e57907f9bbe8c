/**
 * The index-advance loop of String#gsub (mrblib/string_ext.rb) when its
 * pattern is a PosixRegexp: which matches of group 0 the loop visits, in
 * which order, and how it ends. Building the result string is not part of
 * this model.
 */
module StringExt {
  import opened Wrappers
  import opened PosixRegexp

  /** What POSIX promises of a successful regexec(): the whole match (span 0)
      lies inside the subject and does not end before it starts. */
  ghost predicate WholeMatchInside(engine: Engine) {
    forall p, f, subj, n ::
      engine.regexec(p, f, subj, n).status == 0 && |engine.regexec(p, f, subj, n).spans| > 0 ==>
        0 <= engine.regexec(p, f, subj, n).spans[0].so <= engine.regexec(p, f, subj, n).spans[0].eo <= |subj|
  }

  /** A successful match from index holds a whole match inside s[index..],
      in absolute positions. */
  lemma WholeMatchBounds(re: Regexp, s: string, index: nat, engine: Engine)
    requires WholeMatchInside(engine)
    requires Exec(re, s, index, engine).Matched?
    ensures var o := Exec(re, s, index, engine);
      index <= o.table[0].so + o.offset <= o.table[0].eo + o.offset <= |s|
  {
    var res := engine.regexec(re.source, re.option, s[index..], re.nsub + 1);
    assert res.status == 0;
    if |res.spans| > 0 {
      assert 0 <= res.spans[0].so <= res.spans[0].eo <= |s[index..]|;
    }
  }

  /** The amount the loop moves index after a match [b, e): the distance to
      the end of the match, and at least one. */
  function Advance(index: nat, b: int, e: int): (len: int)
    ensures index <= b <= e ==> len >= 1 && index + len == (if e == index then index + 1 else e)
  {
    var len := b - index + (e - b);
    if len == 0 then 1 else len
  }

  /** The amount a loop that steps past every empty match moves index after
      a match [b, e): to e, or to b + 1 when the match is empty. */
  function AdvancePastEmpty(index: nat, b: int, e: int): (len: int)
    ensures index <= b <= e ==> len >= 1 && index + len == (if e == b then b + 1 else e)
  {
    var len := b - index + (e - b);
    if e == b then len + 1 else len
  }

  /** The two ways the loop below can differ from the loop as written: it
      may stop once index has passed the end of the string, and it may step
      past an empty match rather than onto it. */
  datatype Loop = Loop(stopPastEnd: bool, pastEmpty: bool)

  /** gsub's loop as written. */
  const AsWritten := Loop(false, false)

  /** gsub's loop with both corrections. */
  const Corrected := Loop(true, true)

  /** Where the loop goes on after a match [b, e) found from index. */
  function NextIndex(loop: Loop, index: nat, b: int, e: int): int {
    index + if loop.pastEmpty then AdvancePastEmpty(index, b, e) else Advance(index, b, e)
  }

  /** regexp.match(s, index) followed by begin(0) and end(0): the whole
      match in absolute positions, nil when there is no match, or the error
      match raised. The whole match lies between index and the end of s. */
  function WholeMatchFrom(re: Regexp, s: string, index: nat, engine: Engine): (r: Result<Option<Span>, Error>)
    requires WholeMatchInside(engine)
    ensures r.Success? && r.value.Some? ==> index <= r.value.value.so <= r.value.value.eo <= |s|
  {
    match Exec(re, s, index, engine)
    case Raised(e) => Failure(e)
    case NoMatch => Success(None)
    case Matched(table, offset) =>
      WholeMatchBounds(re, s, index, engine);
      Success(Some(Span(table[0].so + offset, table[0].eo + offset)))
  }

  /** The whole matches the loop visits from index on, in absolute positions,
      or the error a match raised. Without stopPastEnd the loop calls match
      again once index has passed the end of the string, as written; with it
      the loop stops there. Without pastEmpty index moves by Advance, as
      written; with it by AdvancePastEmpty. */
  function Scan(re: Regexp, s: string, index: nat, engine: Engine, loop: Loop): Result<seq<Span>, Error>
    requires WholeMatchInside(engine)
    decreases |s| + 1 - index
  {
    if loop.stopPastEnd && index > |s| then Success([])
    else
      match WholeMatchFrom(re, s, index, engine)
      case Failure(e) => Failure(e)
      case Success(None) => Success([])
      case Success(Some(m)) =>
        Prepend([m], Scan(re, s, NextIndex(loop, index, m.so, m.eo), engine, loop))
  }

  /** gsub's loop as written, from index 0. */
  function GsubScanAsWritten(re: Regexp, s: string, engine: Engine): Result<seq<Span>, Error>
    requires WholeMatchInside(engine)
  {
    Scan(re, s, 0, engine, AsWritten)
  }

  /** gsub's loop stopping once index has passed the end of the string and
      stepping past every empty match. */
  function GsubScan(re: Regexp, s: string, engine: Engine): Result<seq<Span>, Error>
    requires WholeMatchInside(engine)
  {
    Scan(re, s, 0, engine, Corrected)
  }

  /** Every match lies between lo and hi. */
  predicate Inside(m: seq<Span>, lo: int, hi: int) {
    forall k :: 0 <= k < |m| ==> lo <= m[k].so <= m[k].eo <= hi
  }

  /** Each match starts no earlier than the previous one ended, so no two
      overlap; and a match starts where the previous one started only when
      that one was empty. */
  predicate InOrder(m: seq<Span>) {
    forall k :: 0 < k < |m| ==>
      m[k - 1].eo <= m[k].so && (m[k - 1].so < m[k].so || m[k - 1].so == m[k - 1].eo == m[k].so)
  }

  /** The matches the loop visits lie between index and the end of the
      string and are in order without overlapping. An empty match found after
      index can be visited twice: index then stops on it. */
  lemma {:induction false} ScanOrdered(re: Regexp, s: string, index: nat, engine: Engine, loop: Loop)
    requires WholeMatchInside(engine)
    ensures Scan(re, s, index, engine, loop).Success? ==>
      Inside(Scan(re, s, index, engine, loop).value, index, |s|) &&
      InOrder(Scan(re, s, index, engine, loop).value)
    decreases |s| + 1 - index
  {
    var w := WholeMatchFrom(re, s, index, engine);
    if !(loop.stopPastEnd && index > |s|) && w.Success? && w.value.Some? {
      var m := w.value.value;
      var next := NextIndex(loop, index, m.so, m.eo);
      ScanOrdered(re, s, next, engine, loop);
      var r := Scan(re, s, next, engine, loop);
      if r.Success? {
        assert Scan(re, s, index, engine, loop) == Success([m] + r.value);
        ConsOrdered(m, next, r.value, index, |s|);
      }
    }
  }

  /** A match put in front of matches that start at or after next. */
  lemma ConsOrdered(first: Span, next: int, rest: seq<Span>, lo: int, hi: int)
    requires lo <= first.so <= first.eo <= next
    requires first.so < next || first.so == first.eo
    requires first.eo <= hi
    requires Inside(rest, next, hi) && InOrder(rest)
    ensures Inside([first] + rest, lo, hi) && InOrder([first] + rest)
  {
    var m := [first] + rest;
    forall k | 0 < k < |m|
      ensures m[k - 1].eo <= m[k].so
      ensures m[k - 1].so < m[k].so || m[k - 1].so == m[k - 1].eo == m[k].so
    {
      assert m[k] == rest[k - 1];
      if k > 1 {
        assert m[k - 1] == rest[k - 2];
      }
    }
  }

  /** Each match starts after the previous one started and no earlier than
      it ended: no match is visited twice. */
  predicate StrictlyInOrder(m: seq<Span>) {
    forall k :: 0 < k < |m| ==> m[k - 1].eo <= m[k].so && m[k - 1].so < m[k].so
  }

  /** A loop that steps past empty matches visits each match once: their
      starts strictly increase. */
  lemma {:induction false} ScanStrictlyOrdered(re: Regexp, s: string, index: nat, engine: Engine, stopPastEnd: bool)
    requires WholeMatchInside(engine)
    ensures var r := Scan(re, s, index, engine, Loop(stopPastEnd, true));
      r.Success? ==> Inside(r.value, index, |s|) && StrictlyInOrder(r.value)
    decreases |s| + 1 - index
  {
    var loop := Loop(stopPastEnd, true);
    var w := WholeMatchFrom(re, s, index, engine);
    if !(stopPastEnd && index > |s|) && w.Success? && w.value.Some? {
      var m := w.value.value;
      var next := NextIndex(loop, index, m.so, m.eo);
      ScanStrictlyOrdered(re, s, next, engine, stopPastEnd);
      var r := Scan(re, s, next, engine, loop);
      if r.Success? {
        assert Scan(re, s, index, engine, loop) == Success([m] + r.value);
        ConsStrictlyOrdered(m, next, r.value, index, |s|);
      }
    }
  }

  /** A match put in front of matches that start at or after next, which
      lies past its start and no earlier than its end. */
  lemma ConsStrictlyOrdered(first: Span, next: int, rest: seq<Span>, lo: int, hi: int)
    requires lo <= first.so <= first.eo <= hi
    requires first.so < next && first.eo <= next
    requires Inside(rest, next, hi) && StrictlyInOrder(rest)
    ensures Inside([first] + rest, lo, hi) && StrictlyInOrder([first] + rest)
  {
    var m := [first] + rest;
    forall k | 0 < k < |m|
      ensures m[k - 1].eo <= m[k].so && m[k - 1].so < m[k].so
    {
      assert m[k] == rest[k - 1];
      if k > 1 {
        assert m[k - 1] == rest[k - 2];
      }
    }
  }

  /** The last match is an empty one at the very end of the string. */
  predicate EndsWithEmptyMatchAtEnd(r: Result<seq<Span>, Error>, s: string) {
    r.Success? && |r.value| > 0 && r.value[|r.value| - 1] == Span(|s|, |s|)
  }

  /** A loop that does not stop at the end and the same loop stopping there
      differ only in how they end: where they differ, the stopping loop's last
      match is an empty match at the end of the string, after which the other
      loop has moved index past the end, and its next call of match raises
      "pos goes over target string". */
  lemma {:induction false} AsWrittenRaisesAfterEmptyMatchAtEnd(re: Regexp, s: string, index: nat, engine: Engine, pastEmpty: bool)
    requires WholeMatchInside(engine)
    requires index <= |s|
    ensures var open, stop := Loop(false, pastEmpty), Loop(true, pastEmpty);
      Scan(re, s, index, engine, open) == Scan(re, s, index, engine, stop) ||
      (Scan(re, s, index, engine, open) == Failure(PosOverTarget) &&
       EndsWithEmptyMatchAtEnd(Scan(re, s, index, engine, stop), s))
    decreases |s| + 1 - index
  {
    var w := WholeMatchFrom(re, s, index, engine);
    if w.Success? && w.value.Some? {
      var m := w.value.value;
      var open, stop := Loop(false, pastEmpty), Loop(true, pastEmpty);
      var next := NextIndex(stop, index, m.so, m.eo);
      assert NextIndex(open, index, m.so, m.eo) == next;
      if next > |s| {
        assert m.so == m.eo == |s|;
        assert Scan(re, s, next, engine, open) == Failure(PosOverTarget);
        assert Scan(re, s, next, engine, stop) == Success([]);
        assert [m] + [] == [m];
        assert Scan(re, s, index, engine, stop) == Success([m]);
      } else {
        AsWrittenRaisesAfterEmptyMatchAtEnd(re, s, next, engine, pastEmpty);
        var r := Scan(re, s, next, engine, stop);
        if r.Success? && Scan(re, s, next, engine, open) != r {
          var all := [m] + r.value;
          assert Scan(re, s, index, engine, stop) == Success(all);
          assert all[|all| - 1] == r.value[|r.value| - 1];
        }
      }
    }
  }

  /** A matcher that finds the empty string at the start of every subject,
      as "()" or "x*" does. */
  const EmptyMatcher: Engine := Engine(
    (p, f) => CompResult(0, 1),
    (p, f, subj, n) => ExecResult(0, [Span(0, 0)]),
    err => "")

  /** With a pattern that matches the empty string everywhere, the loop
      visits every position of s from index on, the end included; the
      stopping loop then ends, and the loop as written raises. */
  lemma {:induction false} EmptyMatcherVisitsEveryPosition(re: Regexp, s: string, index: nat, loop: Loop)
    requires index <= |s| + 1
    ensures WholeMatchInside(EmptyMatcher)
    ensures Scan(re, s, index, EmptyMatcher, loop) ==
      if loop.stopPastEnd then Success(seq(|s| + 1 - index, k requires 0 <= k < |s| + 1 - index => Span(index + k, index + k)))
      else Failure(PosOverTarget)
    decreases |s| + 1 - index
  {
    if index <= |s| {
      EmptyMatcherVisitsEveryPosition(re, s, index + 1, loop);
      var o := Exec(re, s, index, EmptyMatcher);
      assert o.table[0] == Span(0, 0);
      assert NextIndex(loop, index, index, index) == index + 1;
      if loop.stopPastEnd {
        var rest := seq(|s| - index, k requires 0 <= k < |s| - index => Span(index + 1 + k, index + 1 + k));
        var all := seq(|s| + 1 - index, k requires 0 <= k < |s| + 1 - index => Span(index + k, index + k));
        assert all == [Span(index, index)] + rest;
      }
    } else if loop.stopPastEnd {
      assert seq(|s| + 1 - index, k requires 0 <= k < |s| + 1 - index => Span(index + k, index + k)) == [];
    } else {
      assert Exec(re, s, index, EmptyMatcher) == Raised(PosOverTarget);
    }
  }

  /** "123456789".gsub(/()/, ","), or any string with a pattern that matches
      the empty string everywhere: the stopping loop visits every position,
      the end included, and the loop as written raises. */
  lemma GsubEmptyPatternRaises(re: Regexp, s: string)
    ensures WholeMatchInside(EmptyMatcher)
    ensures GsubScan(re, s, EmptyMatcher) ==
      Success(seq(|s| + 1, k requires 0 <= k < |s| + 1 => Span(k, k)))
    ensures GsubScanAsWritten(re, s, EmptyMatcher) == Failure(PosOverTarget)
  {
    EmptyMatcherVisitsEveryPosition(re, s, 0, Corrected);
    EmptyMatcherVisitsEveryPosition(re, s, 0, AsWritten);
    assert seq(|s| + 1 - 0, k requires 0 <= k < |s| + 1 - 0 => Span(0 + k, 0 + k)) ==
      seq(|s| + 1, k requires 0 <= k < |s| + 1 => Span(k, k));
  }

  /** A matcher that finds the empty string at the end of every subject, as
      "$" does. */
  const EndMatcher: Engine := Engine(
    (p, f) => CompResult(0, 1),
    (p, f, subj, n) => ExecResult(0, [Span(|subj|, |subj|)]),
    err => "")

  /** "ab".gsub(/$/, "!"), or any non-empty string with a pattern matching
      only the empty string at its end: moving index onto the empty match
      found after it visits that match twice, even when the loop stops at the
      end; stepping past it visits it once. */
  lemma EmptyMatchAtEndVisitedTwice(re: Regexp, s: string)
    requires |s| > 0
    ensures WholeMatchInside(EndMatcher)
    ensures Scan(re, s, 0, EndMatcher, Loop(true, false)) == Success([Span(|s|, |s|), Span(|s|, |s|)])
    ensures GsubScan(re, s, EndMatcher) == Success([Span(|s|, |s|)])
  {
    var n := |s|;
    assert s[n..] == [];
    assert Exec(re, s, 0, EndMatcher).table[0] == Span(n, n);
    assert Exec(re, s, n, EndMatcher).table[0] == Span(0, 0);
    assert WholeMatchFrom(re, s, 0, EndMatcher) == Success(Some(Span(n, n)));
    assert WholeMatchFrom(re, s, n, EndMatcher) == Success(Some(Span(n, n)));
    assert NextIndex(Loop(true, false), n, n, n) == n + 1;
    assert NextIndex(Loop(true, false), 0, n, n) == n;
    assert NextIndex(Corrected, 0, n, n) == n + 1;
    assert Scan(re, s, n + 1, EndMatcher, Loop(true, false)) == Success([]);
    assert [Span(n, n)] + [] == [Span(n, n)];
    assert Scan(re, s, n, EndMatcher, Loop(true, false)) == Success([Span(n, n)]);
    assert Scan(re, s, 0, EndMatcher, Loop(true, false)) == Success([Span(n, n)] + [Span(n, n)]);
    assert [Span(n, n)] + [Span(n, n)] == [Span(n, n), Span(n, n)];
    assert Scan(re, s, n + 1, EndMatcher, Corrected) == Success([]);
  }

  /** The matches visited so far followed by those still to come. */
  function Prepend(done: seq<Span>, rest: Result<seq<Span>, Error>): Result<seq<Span>, Error> {
    match rest
    case Failure(e) => Failure(e)
    case Success(m) => Success(done + m)
  }

  /** The match data match returns holds the whole match: begin(0) and end(0)
      read it. */
  lemma WholeMatchOf(re: Regexp, s: string, index: nat, engine: Engine, md: MatchData)
    requires WholeMatchInside(engine)
    requires Exec(re, s, index, engine).Matched?
    requires md.Valid() && md.offset == index && md.matches[..] == Exec(re, s, index, engine).table
    ensures md.Begin(0).Some? && md.End(0).Some?
    ensures WholeMatchFrom(re, s, index, engine) == Success(Some(Span(md.Begin(0).value, md.End(0).value)))
  {
    WholeMatchBounds(re, s, index, engine);
    assert md.matches[0] == md.matches[..][0];
  }

  /** regexp.match(s, index), then begin(0) and end(0) of the match data. */
  method MatchWhole(re: Regexp, s: string, index: nat, engine: Engine) returns (r: Result<Option<Span>, Error>)
    requires WholeMatchInside(engine)
    ensures r == WholeMatchFrom(re, s, index, engine)
  {
    var m := Match(re, s, index, engine);
    if m.Failure? {
      return Failure(m.error);
    }
    if m.value.None? {
      return Success(None);
    }
    var md := m.value.value;
    WholeMatchOf(re, s, index, engine, md);
    return Success(Some(Span(md.Begin(0).value, md.End(0).value)));
  }

  /** Prepending in two steps is prepending the concatenation. */
  lemma PrependTwice(a: seq<Span>, b: seq<Span>, r: Result<seq<Span>, Error>)
    ensures Prepend(a, Prepend(b, r)) == Prepend(a + b, r)
  {
    if r.Success? {
      assert a + (b + r.value) == a + b + r.value;
    }
  }

  /** The while loop of String#gsub, with index checked against the length of
      the string before each call of match, and index moved one past an empty
      match: the whole matches replaced, or the error raised. */
  method GsubMatches(re: Regexp, s: string, engine: Engine) returns (r: Result<seq<Span>, Error>)
    requires WholeMatchInside(engine)
    ensures r == GsubScan(re, s, engine)
  {
    var found: seq<Span> := [];
    var index: nat := 0;
    assert Prepend([], GsubScan(re, s, engine)) == GsubScan(re, s, engine) by {
      if GsubScan(re, s, engine).Success? {
        assert [] + GsubScan(re, s, engine).value == GsubScan(re, s, engine).value;
      }
    }
    while index <= |s|
      invariant Prepend(found, Scan(re, s, index, engine, Corrected)) == GsubScan(re, s, engine)
      decreases |s| + 1 - index
    {
      var m := MatchWhole(re, s, index, engine);
      if m.Failure? {
        return Failure(m.error);
      }
      if m.value.None? {
        break;
      }
      var b, e := m.value.value.so, m.value.value.eo;
      var len := b - index + (e - b);
      if e == b {
        len := len + 1;
      }
      PrependTwice(found, [Span(b, e)], Scan(re, s, index + len, engine, Corrected));
      found := found + [Span(b, e)];
      index := index + len;
    }
    assert Prepend(found, Success([])) == Success(found) by {
      assert found + [] == found;
    }
    return Success(found);
  }
}
