/**
 * PosixRegexp::ReplaceCapture (mrblib/string_ext.rb): the parser that turns
 * a sub/gsub replacement string into a template of tokens, and the expander
 * that fills a template in from a match.
 */
module ReplaceCapture {
  import opened Wrappers

  /** One element of @template: a String, a one-element Array holding a
      digit's value or a special character, or a Symbol. */
  datatype Token =
    | Lit(text: string)
    | GroupRef(index: nat)
    | Special(c: char)
    | NameRef(name: string)

  /** The argument of ReplaceCapture.new: a String, or an object of another
      class (named). */
  datatype Arg = Str(s: string) | NonString(className: string)

  /** The characters of META. */
  predicate IsMeta(c: char) {
    c == '`' || c == '\'' || c == '+' || c == '&'
  }

  predicate IsDigit(c: char) {
    '0' <= c <= '9'
  }

  const NameFormatError: Error := RuntimeError("invalid group name reference format")

  /** The loop variables of initialize: the index i, the escape flag meta,
      and the template built so far. */
  datatype ScanState = ScanState(i: nat, meta: bool, template: seq<Token>)

  /** string.index(c, from): the first position at or after from holding c. */
  function IndexFrom(s: string, c: char, from: nat): (r: Option<nat>)
    ensures r.Some? ==> from <= r.value < |s| && s[r.value] == c
    ensures r.Some? ==> forall k :: from <= k < r.value ==> s[k] != c
    ensures r.None? ==> forall k :: from <= k < |s| ==> s[k] != c
    decreases |s| - from
  {
    if from >= |s| then None
    else if s[from] == c then Some(from)
    else IndexFrom(s, c, from + 1)
  }

  /** Ruby's string[from..to] for from <= |s|: a negative to counts from the
      end, and a range that ends before it starts is empty. */
  function RangeSlice(s: string, from: nat, to: int): (r: string)
    requires from <= |s|
    ensures from <= to < |s| ==> r == s[from..to + 1]
    ensures to < from && (to >= 0 || |s| + to < from) ==> r == []
  {
    var last := if to < 0 then |s| + to else to;
    if last < from then []
    else s[from..if last + 1 < |s| then last + 1 else |s|]
  }

  /** One turn of the while loop of initialize, with the closing '>' of a
      \k<name> reference searched for from position closeFrom on. The source
      searches the whole string (closeFrom = 0). */
  function Turn(s: string, st: ScanState, closeFrom: nat): Result<ScanState, Error>
    requires st.i < |s|
  {
    var c, i, meta, t := s[st.i], st.i, st.meta, st.template;
    if c == '\\' then
      Success(ScanState(i + 1, !meta, if meta then t + [Lit([c])] else t))
    else if c == 'k' then
      if !meta then Success(ScanState(i + 1, meta, t + [Lit([c])]))
      else if i + 1 < |s| && s[i + 1] == '<' then
        match IndexFrom(s, '>', closeFrom)
        case None => Failure(NameFormatError)
        case Some(e) => Success(ScanState(e + 1, meta, t + [NameRef(RangeSlice(s, i + 2, e - 1))]))
      else Success(ScanState(i + 1, meta, t + [Lit("\\k")]))
    else if IsDigit(c) then
      Success(ScanState(i + 1, false, t + [if meta then GroupRef(c as int - '0' as int) else Lit([c])]))
    else if IsMeta(c) then
      Success(ScanState(i + 1, meta, t + [if meta then Special(c) else Lit([c])]))
    else
      Success(ScanState(i + 1, false, t + (if meta then [Lit([c]), Lit([c])] else [Lit([c])])))
  }

  /** One turn of the loop as written. */
  function StepAsWritten(s: string, st: ScanState): Result<ScanState, Error>
    requires st.i < |s|
  {
    Turn(s, st, 0)
  }

  /** One turn of the loop with the '>' searched for after "\k<". Every turn
      moves i forward and only appends to the template. */
  function Step(s: string, st: ScanState): (r: Result<ScanState, Error>)
    requires st.i < |s|
    ensures r.Success? ==> st.i < r.value.i <= |s|
    ensures r.Success? ==> |st.template| <= |r.value.template|
    ensures r.Success? ==> r.value.template[..|st.template|] == st.template
  {
    Turn(s, st, st.i + 2)
  }

  /** Where the name of a \k<name> reference is closed after it starts, the
      source's turn and the corrected one agree. */
  lemma StepAgreesWhenNoEarlyClose(s: string, st: ScanState)
    requires st.i < |s|
    requires forall k :: 0 <= k < st.i + 2 && k < |s| ==> s[k] != '>'
    ensures StepAsWritten(s, st) == Step(s, st)
  {
    var i := st.i;
    if s[i] == 'k' && st.meta && i + 1 < |s| && s[i + 1] == '<' {
      IndexFromSkips(s, '>', 0, i + 2);
    }
  }

  /** Searching from an earlier position finds the same character when there
      is none in between. */
  lemma {:induction false} IndexFromSkips(s: string, c: char, lo: nat, hi: nat)
    requires lo <= hi
    requires forall k :: lo <= k < hi && k < |s| ==> s[k] != c
    ensures IndexFrom(s, c, lo) == IndexFrom(s, c, hi)
    decreases hi - lo
  {
    if lo < hi && lo < |s| {
      IndexFromSkips(s, c, lo + 1, hi);
    }
  }

  /** Up to `turns` turns of the loop as written, stopping when i reaches the
      end of the string. */
  function RunAsWritten(s: string, st: ScanState, turns: nat): Result<ScanState, Error>
    decreases turns
  {
    if turns == 0 || st.i >= |s| then Success(st)
    else
      match StepAsWritten(s, st)
      case Failure(e) => Failure(e)
      case Success(next) => RunAsWritten(s, next, turns - 1)
  }

  /** A replacement string on which initialize, as written, never returns. */
  const LoopingTemplate: string := ">1\\k<"

  /** From i = 3 with meta set, three turns of the loop as written come back
      to i = 3 with meta set: the '>' at position 0 sends i back to 1. */
  lemma LoopingTemplateCycle(t: seq<Token>)
    ensures RunAsWritten(LoopingTemplate, ScanState(3, true, t), 3)
         == Success(ScanState(3, true, t + [NameRef([]), GroupRef(1)]))
  {
    var s := LoopingTemplate;
    assert IndexFrom(s, '>', 0) == Some(0);
    var st1 := ScanState(1, true, t + [NameRef([])]);
    assert StepAsWritten(s, ScanState(3, true, t)) == Success(st1);
    assert s[1] == '1' && IsDigit(s[1]);
    assert t + [NameRef([])] + [GroupRef(1)] == t + [NameRef([]), GroupRef(1)];
    var st2 := ScanState(2, false, t + [NameRef([]), GroupRef(1)]);
    assert StepAsWritten(s, st1) == Success(st2);
    assert StepAsWritten(s, st2) == Success(ScanState(3, true, st2.template));
  }

  /** However many turns it is given, the loop as written is still running on
      LoopingTemplate: i never reaches the end of the string. */
  lemma {:induction false} LoopingTemplateNeverEnds(t: seq<Token>, n: nat)
    ensures RunAsWritten(LoopingTemplate, ScanState(3, true, t), 3 * n).Success?
    ensures RunAsWritten(LoopingTemplate, ScanState(3, true, t), 3 * n).value.i == 3 < |LoopingTemplate|
    decreases n
  {
    if n > 0 {
      var s := LoopingTemplate;
      var t' := t + [NameRef([]), GroupRef(1)];
      LoopingTemplateCycle(t);
      RunAsWrittenSplit(s, ScanState(3, true, t), 3, 3 * (n - 1));
      LoopingTemplateNeverEnds(t', n - 1);
    }
  }

  /** Running a + b turns is running a turns, then b more. */
  lemma {:induction false} RunAsWrittenSplit(s: string, st: ScanState, a: nat, b: nat)
    requires RunAsWritten(s, st, a).Success?
    ensures RunAsWritten(s, st, a + b) ==
      if RunAsWritten(s, st, a).value.i >= |s| then RunAsWritten(s, st, a)
      else RunAsWritten(s, RunAsWritten(s, st, a).value, b)
    decreases a
  {
    if a > 0 && st.i < |s| {
      RunAsWrittenSplit(s, StepAsWritten(s, st).value, a - 1, b);
    } else if a == 0 && st.i >= |s| {
      assert RunAsWritten(s, st, b) == Success(st);
    }
  }

  /** The template the corrected loop builds from state st to the end of s. */
  function ParseFrom(s: string, st: ScanState): Result<seq<Token>, Error>
    requires st.i <= |s|
    decreases |s| - st.i
  {
    if st.i == |s| then Success(st.template)
    else
      match Step(s, st)
      case Failure(e) => Failure(e)
      case Success(next) => ParseFrom(s, next)
  }

  /** ReplaceCapture.new(arg): the @template it builds, or the error. */
  function Parse(arg: Arg): Result<seq<Token>, Error> {
    match arg
    case NonString(cls) => Failure(TypeError("can't convert " + cls + " into String"))
    case Str(s) => ParseFrom(s, ScanState(0, false, []))
  }

  /** ReplaceCapture#initialize, with the '>' searched for after "\k<". */
  method Initialize(arg: Arg) returns (r: Result<seq<Token>, Error>)
    ensures r == Parse(arg)
  {
    if arg.NonString? {
      return Failure(TypeError("can't convert " + arg.className + " into String"));
    }
    var str := arg.s;
    var template: seq<Token> := [];
    var meta := false;
    var i := 0;
    while i < |str|
      invariant 0 <= i <= |str|
      invariant ParseFrom(str, ScanState(i, meta, template)) == Parse(arg)
      decreases |str| - i
    {
      ghost var before := ScanState(i, meta, template);
      assert Step(str, before) == Turn(str, before, i + 2);
      var c := str[i];
      if c == '\\' {
        if meta {
          template := template + [Lit([c])];
        }
        meta := !meta;
      } else if c == 'k' {
        if meta {
          if i + 1 < |str| && str[i + 1] == '<' {
            var e := IndexFrom(str, '>', i + 2);
            if e.None? {
              return Failure(NameFormatError);
            }
            template := template + [NameRef(RangeSlice(str, i + 2, e.value - 1))];
            i := e.value;
          } else {
            template := template + [Lit("\\k")];
          }
        } else {
          template := template + [Lit([c])];
        }
      } else if IsDigit(c) {
        if meta {
          template := template + [GroupRef(c as int - '0' as int)];
        } else {
          template := template + [Lit([c])];
        }
        meta := false;
      } else if IsMeta(c) {
        if meta {
          template := template + [Special(c)];
        } else {
          template := template + [Lit([c])];
        }
      } else {
        ghost var t0 := template;
        if meta {
          template := template + [Lit([c])];
        }
        template := template + [Lit([c])];
        assert template == t0 + (if meta then [Lit([c]), Lit([c])] else [Lit([c])]);
        meta := false;
      }
      i := i + 1;
      assert Step(str, before) == Success(ScanState(i, meta, template));
    }
    return Success(template);
  }

  // ---------------------------------------------------------------------
  // What initialize builds
  // ---------------------------------------------------------------------

  /** One literal token per character. */
  function Literals(s: string): (r: seq<Token>)
    ensures |r| == |s|
    ensures forall k :: 0 <= k < |s| ==> r[k] == Lit([s[k]])
  {
    seq(|s|, k requires 0 <= k < |s| => Lit([s[k]]))
  }

  /** Without a backslash, every character is a literal token of its own. */
  lemma {:induction false} ParsePlain(s: string, i: nat, t: seq<Token>)
    requires i <= |s|
    requires forall k :: i <= k < |s| ==> s[k] != '\\'
    ensures ParseFrom(s, ScanState(i, false, t)) == Success(t + Literals(s[i..]))
    decreases |s| - i
  {
    if i == |s| {
      assert Literals(s[i..]) == [];
      assert t + Literals(s[i..]) == t;
    } else {
      ParsePlain(s, i + 1, t + [Lit([s[i]])]);
      PlainPrefix(s, i, t);
    }
  }

  /** One literal in front of the parse of the rest. */
  lemma PlainPrefix(s: string, i: nat, t: seq<Token>)
    requires i < |s| && s[i] != '\\'
    requires ParseFrom(s, ScanState(i + 1, false, t + [Lit([s[i]])])) ==
      Success(t + [Lit([s[i]])] + Literals(s[i + 1..]))
    ensures ParseFrom(s, ScanState(i, false, t)) == Success(t + Literals(s[i..]))
  {
    PlainStep(s, i, t);
    ParseFromStep(s, ScanState(i, false, t));
    LiteralsSplit(s, i, t);
  }

  /** The literals from i on: the one for s[i], then those after it. */
  lemma LiteralsSplit(s: string, i: nat, t: seq<Token>)
    requires i < |s|
    ensures t + [Lit([s[i]])] + Literals(s[i + 1..]) == t + Literals(s[i..])
  {
    LiteralsCons(s[i..]);
    assert s[i..][1..] == s[i + 1..];
    assert t + [Lit([s[i]])] + Literals(s[i + 1..]) == t + ([Lit([s[i]])] + Literals(s[i + 1..]));
  }

  /** A successful turn leaves the rest of the parse to the next state. */
  lemma ParseFromStep(s: string, st: ScanState)
    requires st.i < |s| && Step(s, st).Success?
    ensures ParseFrom(s, st) == ParseFrom(s, Step(s, st).value)
  {
  }

  /** Outside an escape, a character other than a backslash is a literal. */
  lemma PlainStep(s: string, i: nat, t: seq<Token>)
    requires i < |s| && s[i] != '\\'
    ensures Step(s, ScanState(i, false, t)) == Success(ScanState(i + 1, false, t + [Lit([s[i]])]))
  {
  }

  /** The literals of a non-empty string: its first character's, then the
      rest's. */
  lemma LiteralsCons(s: string)
    requires |s| > 0
    ensures Literals(s) == [Lit([s[0]])] + Literals(s[1..])
  {
  }

  /** A backslash outside an escape only sets the escape flag. */
  lemma OpenEscape(s: string, i: nat, t: seq<Token>)
    requires i < |s| && s[i] == '\\'
    ensures ParseFrom(s, ScanState(i, false, t)) == ParseFrom(s, ScanState(i + 1, true, t))
  {
    assert Step(s, ScanState(i, false, t)) == Success(ScanState(i + 1, true, t));
    ParseFromStep(s, ScanState(i, false, t));
  }

  /** The turn on the character after an opening backslash. */
  lemma EscapedTurn(s: string, i: nat, t: seq<Token>, next: ScanState)
    requires i + 1 < |s| && s[i] == '\\'
    requires Step(s, ScanState(i + 1, true, t)) == Success(next)
    ensures ParseFrom(s, ScanState(i, false, t)) == ParseFrom(s, next)
  {
    OpenEscape(s, i, t);
    ParseFromStep(s, ScanState(i + 1, true, t));
  }

  /** "\d" for a digit d is a back-reference to group d and clears the
      escape flag. */
  lemma EscapedDigit(s: string, i: nat, t: seq<Token>)
    requires i + 1 < |s| && s[i] == '\\' && IsDigit(s[i + 1])
    ensures ParseFrom(s, ScanState(i, false, t)) ==
      ParseFrom(s, ScanState(i + 2, false, t + [GroupRef(s[i + 1] as int - '0' as int)]))
  {
    EscapedTurn(s, i, t, ScanState(i + 2, false, t + [GroupRef(s[i + 1] as int - '0' as int)]));
  }

  /** "\\" is one literal backslash and clears the escape flag. */
  lemma EscapedBackslash(s: string, i: nat, t: seq<Token>)
    requires i + 1 < |s| && s[i] == '\\' && s[i + 1] == '\\'
    ensures ParseFrom(s, ScanState(i, false, t)) ==
      ParseFrom(s, ScanState(i + 2, false, t + [Lit("\\")]))
  {
    EscapedTurn(s, i, t, ScanState(i + 2, false, t + [Lit("\\")]));
  }

  /** A lone backslash at the end adds nothing. */
  lemma TrailingBackslash(s: string, t: seq<Token>)
    requires |s| > 0 && s[|s| - 1] == '\\'
    ensures ParseFrom(s, ScanState(|s| - 1, false, t)) == Success(t)
  {
    OpenEscape(s, |s| - 1, t);
  }

  /** "\`", "\'", "\+" and "\&" are special tokens, and the escape flag stays
      set after them. */
  lemma EscapedSpecial(s: string, i: nat, t: seq<Token>)
    requires i + 1 < |s| && s[i] == '\\' && IsMeta(s[i + 1])
    ensures ParseFrom(s, ScanState(i, false, t)) ==
      ParseFrom(s, ScanState(i + 2, true, t + [Special(s[i + 1])]))
  {
    EscapedTurn(s, i, t, ScanState(i + 2, true, t + [Special(s[i + 1])]));
  }

  /** Any other escaped character is pushed twice and clears the flag. */
  lemma EscapedOther(s: string, i: nat, t: seq<Token>)
    requires i + 1 < |s| && s[i] == '\\'
    requires var c := s[i + 1]; c != '\\' && c != 'k' && !IsDigit(c) && !IsMeta(c)
    ensures ParseFrom(s, ScanState(i, false, t)) ==
      ParseFrom(s, ScanState(i + 2, false, t + [Lit([s[i + 1]]), Lit([s[i + 1]])]))
  {
    EscapedTurn(s, i, t, ScanState(i + 2, false, t + [Lit([s[i + 1]]), Lit([s[i + 1]])]));
  }

  /** "\k<name>" is a named reference to the text up to the next '>', the
      escape flag stays set after it, and without a '>' initialize raises. */
  lemma NamedReference(s: string, i: nat, t: seq<Token>)
    requires i + 2 < |s| && s[i] == '\\' && s[i + 1] == 'k' && s[i + 2] == '<'
    ensures IndexFrom(s, '>', i + 3).None? ==>
      ParseFrom(s, ScanState(i, false, t)) == Failure(NameFormatError)
    ensures IndexFrom(s, '>', i + 3).Some? ==>
      var e := IndexFrom(s, '>', i + 3).value;
      && (forall k :: i + 3 <= k < e ==> s[k] != '>')
      && ParseFrom(s, ScanState(i, false, t)) ==
         ParseFrom(s, ScanState(e + 1, true, t + [NameRef(s[i + 3..e])]))
  {
    OpenEscape(s, i, t);
    var st := ScanState(i + 1, true, t);
    assert Step(s, st) == Turn(s, st, i + 3);
    match IndexFrom(s, '>', i + 3)
    case None =>
    case Some(e) =>
      assert RangeSlice(s, i + 3, e - 1) == s[i + 3..e];
      assert Step(s, st) == Success(ScanState(e + 1, true, t + [NameRef(s[i + 3..e])]));
      ParseFromStep(s, st);
  }

  // ---------------------------------------------------------------------
  // Expansion (to_s)
  // ---------------------------------------------------------------------

  /** What to_s reads from the match data: the groups (matches[n], nil for a
      group that did not take part), pre_match, post_match, names and the
      named groups. */
  datatype MatchView = MatchView(
    groups: seq<Option<string>>,
    preMatch: string,
    postMatch: string,
    names: seq<string>,
    named: map<string, Option<string>>)

  /** matches[n]: nil beyond the last group. */
  function GroupAt(m: MatchView, n: nat): Option<string> {
    if n < |m.groups| then m.groups[n] else None
  }

  /** matches[name]. */
  function NamedAt(m: MatchView, name: string): Option<string> {
    if name in m.named then m.named[name] else None
  }

  /** str += value: appending nil raises TypeError. */
  function Appended(value: Option<string>): Result<string, Error> {
    match value
    case None => Failure(TypeError("can't convert nil into String"))
    case Some(v) => Success(v)
  }

  /** The text one token adds to the result. */
  function ExpandToken(tok: Token, m: MatchView): Result<string, Error> {
    match tok
    case Lit(text) => Success(text)
    case GroupRef(n) => Success(GroupAt(m, n).GetOr([]))
    case Special(c) =>
      if c == '`' then Success(m.preMatch)
      else if c == '\'' then Success(m.postMatch)
      else if c == '+' then
        if |m.groups| <= 1 then Success([]) else Appended(m.groups[|m.groups| - 1])
      else if c == '&' then Appended(GroupAt(m, 0))
      else Success([])
    case NameRef(name) =>
      if name !in m.names then Failure(IndexError("undefined group name reference: " + name))
      else Appended(NamedAt(m, name))
  }

  /** The expansion of a template: the tokens' texts in order, or the first
      error a token raises. */
  function Expansion(tokens: seq<Token>, m: MatchView): Result<string, Error>
    decreases |tokens|
  {
    if tokens == [] then Success([])
    else
      match ExpandToken(tokens[0], m)
      case Failure(e) => Failure(e)
      case Success(x) =>
        match Expansion(tokens[1..], m)
        case Failure(e) => Failure(e)
        case Success(y) => Success(x + y)
  }

  /** Expansion distributes over concatenation of templates. */
  lemma {:induction false} ExpansionAppend(a: seq<Token>, b: seq<Token>, m: MatchView)
    ensures Expansion(a + b, m) ==
      match Expansion(a, m)
      case Failure(e) => Failure(e)
      case Success(x) =>
        match Expansion(b, m)
        case Failure(e) => Failure(e)
        case Success(y) => Success(x + y)
    decreases |a|
  {
    if a == [] {
      assert a + b == b;
      match Expansion(b, m)
      case Failure(_) =>
      case Success(y) => assert [] + y == y;
    } else {
      assert (a + b)[1..] == a[1..] + b;
      ExpansionAppend(a[1..], b, m);
      match Expansion(b, m)
      case Failure(_) =>
      case Success(y) =>
        match ExpandToken(a[0], m)
        case Failure(_) =>
        case Success(x) =>
          match Expansion(a[1..], m)
          case Failure(_) =>
          case Success(z) =>
            assert x + (z + y) == (x + z) + y;
    }
  }

  /** A replacement string without a backslash is reproduced verbatim,
      whatever the match. */
  lemma PlainTemplateRoundTrip(s: string, m: MatchView)
    requires '\\' !in s
    ensures Parse(Str(s)) == Success(Literals(s))
    ensures Expansion(Literals(s), m) == Success(s)
  {
    assert forall k :: 0 <= k < |s| ==> s[k] != '\\';
    ParsePlain(s, 0, []);
    assert s[0..] == s;
    assert [] + Literals(s) == Literals(s);
    ExpandLiterals(s, m);
  }

  /** Literal tokens expand to their characters. */
  lemma {:induction false} ExpandLiterals(s: string, m: MatchView)
    ensures Expansion(Literals(s), m) == Success(s)
    decreases |s|
  {
    if s != [] {
      ExpandLiterals(s[1..], m);
      assert Literals(s)[1..] == Literals(s[1..]);
      assert ExpandToken(Literals(s)[0], m) == Success([s[0]]);
      assert s == [s[0]] + s[1..];
    }
  }

  /** "\d" expands to group d, or to nothing when that group is nil. */
  lemma EscapedDigitExpands(d: char, m: MatchView)
    requires IsDigit(d)
    ensures Parse(Str(['\\', d])) == Success([GroupRef(d as int - '0' as int)])
    ensures Expansion([GroupRef(d as int - '0' as int)], m) ==
      Success(GroupAt(m, d as int - '0' as int).GetOr([]))
  {
    EscapedDigit(['\\', d], 0, []);
    var n := d as int - '0' as int;
    assert [GroupRef(n)][1..] == [];
    assert GroupAt(m, n).GetOr([]) + [] == GroupAt(m, n).GetOr([]);
  }

  /** to_s(matches): the tokens' texts appended in order. */
  method ToS(template: seq<Token>, m: MatchView) returns (r: Result<string, Error>)
    ensures r == Expansion(template, m)
  {
    var str: string := [];
    assert template[0..] == template;
    if Expansion(template, m).Success? {
      var y := Expansion(template, m).value;
      assert [] + y == y;
    }
    for k := 0 to |template|
      invariant Expansion(template, m) ==
        match Expansion(template[k..], m)
        case Failure(e) => Failure(e)
        case Success(y) => Success(str + y)
    {
      assert template[k..][0] == template[k] && template[k..][1..] == template[k + 1..];
      var piece := ExpandToken(template[k], m);
      if piece.Failure? {
        return Failure(piece.error);
      }
      if Expansion(template[k + 1..], m).Success? {
        var y := Expansion(template[k + 1..], m).value;
        assert str + (piece.value + y) == (str + piece.value) + y;
      }
      str := str + piece.value;
    }
    assert template[|template|..] == [];
    assert str + [] == str;
    return Success(str);
  }
}
