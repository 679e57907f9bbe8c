/**
 * The C core of the gem (src/posix-regexp.c): translating a Ruby flag string
 * into a regcomp() flag word, compiling, matching from a start position, and
 * the match-data table with its begin/end accessors.
 *
 * The POSIX regex library itself (regcomp, regexec, regerror) is a parameter:
 * an Engine value whose functions are left uninterpreted.
 */
module PosixRegexp {
  import opened Wrappers

  /** The regcomp() flag bits used by the gem, as distinct abstract bits.
      A flag word is the set of bits that are on. */
  datatype RegFlag = Extended | ICase | NoSub | Newline

  type Flags = set<RegFlag>

  /** regmatch_t: start and end byte offsets relative to the string handed to
      regexec(); -1 marks a group that took no part in the match. */
  datatype Span = Span(so: int, eo: int)

  const Unset: int := -1

  /** What regcomp() reports: its status (0 on success) and re_nsub. */
  datatype CompResult = CompResult(err: int, nsub: nat)

  /** What regexec() reports: its status and the spans it stores, slot 0
      being the whole match. */
  datatype ExecResult = ExecResult(status: int, spans: seq<Span>)

  /** The POSIX regex library. A compiled regex_t is determined by the
      pattern and the flag word given to regcomp(), so regexec() receives
      those two in its place. */
  datatype Engine = Engine(
    regcomp: (string, Flags) -> CompResult,
    regexec: (string, Flags, string, nat) -> ExecResult,
    regerror: int -> string)

  /** The "no match" status of regexec(). Only its being non-zero matters. */
  const REG_NOMATCH: int := 1

  /** A successfully initialised PosixRegexp: @source, @option (the flag word)
      and the re_nsub of its regex_t. */
  datatype Regexp = Regexp(source: string, option: Flags, nsub: nat)

  const UnsupportedFlag: Error := RegexpError("unsupported flag")
  const PosOverTarget: Error := RegexpError("pos goes over target string")

  // ---------------------------------------------------------------------
  // Flag translation (mrb_posixregexp_init)
  // ---------------------------------------------------------------------

  /** One turn of the flag loop: 'i' turns REG_ICASE on, 'm' turns
      REG_NEWLINE off, and any other character is refused. */
  function ApplyFlagChar(flag: Flags, c: char): Option<Flags> {
    if c == 'i' then Some(flag + {ICase})
    else if c == 'm' then Some(flag - {Newline})
    else None
  }

  /** The flag loop over a whole flag string, left to right, starting from
      REG_NEWLINE alone; None once a character is refused. */
  function ApplyFlagChars(flagstr: string): Option<Flags>
    decreases |flagstr|
  {
    if flagstr == [] then Some({Newline})
    else
      match ApplyFlagChars(flagstr[..|flagstr| - 1])
      case None => None
      case Some(flag) => ApplyFlagChar(flag, flagstr[|flagstr| - 1])
  }

  /** The flag word passed to regcomp(), or the error raised instead. */
  function FlagWord(pattern: string, flagstr: string): Result<Flags, Error> {
    match ApplyFlagChars(flagstr)
    case None => Failure(UnsupportedFlag)
    case Some(flag) =>
      Success(flag + (if pattern == [] then {NoSub} else {}) + {Extended})
  }

  /** Every character of the flag string is a flag the gem knows. */
  predicate SupportedFlags(flagstr: string) {
    forall k :: 0 <= k < |flagstr| ==> flagstr[k] == 'i' || flagstr[k] == 'm'
  }

  /** The loop accepts exactly the strings over {i, m}; it sets REG_ICASE iff
      an 'i' occurs and leaves REG_NEWLINE on iff no 'm' occurs. */
  lemma {:induction false} ApplyFlagCharsMeaning(flagstr: string)
    ensures ApplyFlagChars(flagstr).Some? <==> SupportedFlags(flagstr)
    ensures ApplyFlagChars(flagstr).Some? ==>
      var flag := ApplyFlagChars(flagstr).value;
      && flag <= {ICase, Newline}
      && (ICase in flag <==> 'i' in flagstr)
      && (Newline in flag <==> 'm' !in flagstr)
    decreases |flagstr|
  {
    if flagstr != [] {
      var init, last := flagstr[..|flagstr| - 1], flagstr[|flagstr| - 1];
      ApplyFlagCharsMeaning(init);
      assert flagstr == init + [last];
      assert forall c :: c in flagstr <==> c in init || c == last;
      if SupportedFlags(flagstr) {
        assert forall k :: 0 <= k < |init| ==> init[k] == flagstr[k];
      }
    }
  }

  /** The properties of the flag word: REG_EXTENDED always; REG_NOSUB iff the
      pattern is empty; REG_ICASE iff 'i' occurs; REG_NEWLINE iff no 'm'
      occurs; "unsupported flag" iff some other character occurs. */
  lemma FlagWordMeaning(pattern: string, flagstr: string)
    ensures FlagWord(pattern, flagstr).Failure? <==> !SupportedFlags(flagstr)
    ensures FlagWord(pattern, flagstr).Failure? ==>
      FlagWord(pattern, flagstr).error == UnsupportedFlag
    ensures FlagWord(pattern, flagstr).Success? ==>
      var flag := FlagWord(pattern, flagstr).value;
      && Extended in flag
      && (NoSub in flag <==> pattern == [])
      && (ICase in flag <==> 'i' in flagstr)
      && (Newline in flag <==> 'm' !in flagstr)
  {
    ApplyFlagCharsMeaning(flagstr);
  }

  /** The flag word depends only on which characters occur, not on their
      order or repetition: "mm" acts as "m", and "im" as "mi". */
  lemma FlagWordDependsOnlyOnCharacters(pattern: string, a: string, b: string)
    requires forall c :: c in a <==> c in b
    ensures FlagWord(pattern, a) == FlagWord(pattern, b)
  {
    FlagWordMeaning(pattern, a);
    FlagWordMeaning(pattern, b);
    assert SupportedFlags(a) <==> SupportedFlags(b) by {
      if SupportedFlags(a) {
        forall k | 0 <= k < |b| ensures b[k] == 'i' || b[k] == 'm' {
          assert b[k] in a;
        }
      }
      if SupportedFlags(b) {
        forall k | 0 <= k < |a| ensures a[k] == 'i' || a[k] == 'm' {
          assert a[k] in b;
        }
      }
    }
    if SupportedFlags(a) {
      ApplyFlagCharsMeaning(a);
      ApplyFlagCharsMeaning(b);
      var fa, fb := ApplyFlagChars(a).value, ApplyFlagChars(b).value;
      forall x: RegFlag ensures x in fa <==> x in fb {
      }
      assert fa == fb;
    }
  }

  /** The flag loop of mrb_posixregexp_init followed by its REG_NOSUB and
      REG_EXTENDED steps. */
  method TranslateFlags(pattern: string, flagstr: string) returns (r: Result<Flags, Error>)
    ensures r == FlagWord(pattern, flagstr)
  {
    var flag: Flags := {Newline};
    for i := 0 to |flagstr|
      invariant ApplyFlagChars(flagstr[..i]) == Some(flag)
    {
      assert flagstr[..i + 1][..i] == flagstr[..i];
      if flagstr[i] == 'i' {
        flag := flag + {ICase};
      } else if flagstr[i] == 'm' {
        flag := flag - {Newline};
      } else {
        ApplyFlagCharsMeaning(flagstr);
        return Failure(UnsupportedFlag);
      }
    }
    assert flagstr[..|flagstr|] == flagstr;
    assert ApplyFlagChars(flagstr) == Some(flag);
    var word := flag;
    if pattern == [] {
      word := word + {NoSub};
    }
    word := word + {Extended};
    assert word == flag + (if pattern == [] then {NoSub} else {}) + {Extended};
    return Success(word);
  }

  // ---------------------------------------------------------------------
  // Compilation (mrb_posixregexp_init)
  // ---------------------------------------------------------------------

  /** PosixRegexp.new(pattern, flagstr): the compiled regexp, or the error. */
  function Construct(pattern: string, flagstr: string, engine: Engine): Result<Regexp, Error> {
    match FlagWord(pattern, flagstr)
    case Failure(e) => Failure(e)
    case Success(flag) =>
      var c := engine.regcomp(pattern, flag);
      if c.err != 0 then Failure(RegexpError(engine.regerror(c.err)))
      else Success(Regexp(pattern, flag, c.nsub))
  }

  /** mrb_posixregexp_init: translate the flags, then compile. */
  method Initialize(pattern: string, flagstr: string, engine: Engine) returns (r: Result<Regexp, Error>)
    ensures r == Construct(pattern, flagstr, engine)
  {
    var translated := TranslateFlags(pattern, flagstr);
    if translated.Failure? {
      return Failure(translated.error);
    }
    var flag := translated.value;
    var c := engine.regcomp(pattern, flag);
    if c.err != 0 {
      return Failure(RegexpError(engine.regerror(c.err)));
    }
    return Success(Regexp(pattern, flag, c.nsub));
  }

  /** An unsupported flag is refused before regcomp() is consulted: the
      outcome is the same whatever the engine. */
  lemma UnsupportedFlagRaisesBeforeCompile(pattern: string, flagstr: string, e1: Engine, e2: Engine)
    requires !SupportedFlags(flagstr)
    ensures Construct(pattern, flagstr, e1) == Construct(pattern, flagstr, e2) == Failure(UnsupportedFlag)
  {
    FlagWordMeaning(pattern, flagstr);
  }

  /** A regexp is built iff the flags are supported and regcomp() succeeds;
      it records the pattern, the translated flag word and re_nsub. */
  lemma ConstructMeaning(pattern: string, flagstr: string, engine: Engine)
    ensures Construct(pattern, flagstr, engine).Success? <==>
      && FlagWord(pattern, flagstr).Success?
      && engine.regcomp(pattern, FlagWord(pattern, flagstr).value).err == 0
    ensures FlagWord(pattern, flagstr).Success? <==> SupportedFlags(flagstr)
    ensures Construct(pattern, flagstr, engine).Success? ==>
      var re := Construct(pattern, flagstr, engine).value;
      && re.source == pattern
      && re.nsub == engine.regcomp(pattern, re.option).nsub
      && Extended in re.option
      && (NoSub in re.option <==> pattern == [])
      && (ICase in re.option <==> 'i' in flagstr)
      && (Newline in re.option <==> 'm' !in flagstr)
  {
    FlagWordMeaning(pattern, flagstr);
  }

  // ---------------------------------------------------------------------
  // Matching (mrb_posixregexp_match)
  // ---------------------------------------------------------------------

  /** The span table after regexec(): the spans the engine stored, and the
      zeroes left by calloc() in any slot it did not store. */
  function Recorded(nmatch: nat, spans: seq<Span>): (t: seq<Span>)
    ensures |t| == nmatch
    ensures forall k :: 0 <= k < nmatch ==> t[k] == if k < |spans| then spans[k] else Span(0, 0)
  {
    seq(nmatch, k requires 0 <= k < nmatch => if k < |spans| then spans[k] else Span(0, 0))
  }

  /** The three outcomes of a match: the span table with its offset, nil, or
      a raised error. */
  datatype Outcome = Matched(table: seq<Span>, offset: nat) | NoMatch | Raised(error: Error)

  /** What regexp.match(input, pos) produces. */
  function Exec(re: Regexp, input: string, pos: nat, engine: Engine): (r: Outcome)
    ensures r.Matched? ==> |r.table| == re.nsub + 1 && r.offset == pos
  {
    if pos > |input| then Raised(PosOverTarget)
    else
      var res := engine.regexec(re.source, re.option, input[pos..], re.nsub + 1);
      if res.status == 0 then Matched(Recorded(re.nsub + 1, res.spans), pos)
      else if res.status == REG_NOMATCH then NoMatch
      else Raised(RegexpError(engine.regerror(res.status)))
  }

  /** The start position is checked first; within range the engine sees the
      input from pos on, and its status alone picks the outcome. */
  lemma ExecDispatch(re: Regexp, input: string, pos: nat, engine: Engine)
    ensures Exec(re, input, pos, engine) == Raised(PosOverTarget) <== pos > |input|
    ensures pos <= |input| ==>
      var res := engine.regexec(re.source, re.option, input[pos..], re.nsub + 1);
      && (Exec(re, input, pos, engine).Matched? <==> res.status == 0)
      && (Exec(re, input, pos, engine).NoMatch? <==> res.status == REG_NOMATCH)
      && (Exec(re, input, pos, engine).Raised? <==> res.status != 0 && res.status != REG_NOMATCH)
      && (Exec(re, input, pos, engine).Raised? ==>
            Exec(re, input, pos, engine).error == RegexpError(engine.regerror(res.status)))
  {
  }

  /** What an accessor of the C code reads: nil, a position, or a read of the
      span table at an index outside it (undefined behaviour in C). */
  datatype Lookup = Nil | Position(value: int) | OutOfTable(index: int)

  /** PosixMatchData: the C struct mrb_matchdata (len, offset and the span
      table) plus the instance variables @regexp, @string and @length, which
      are nil until a successful match sets them. */
  class MatchData {
    var len: int
    var offset: int
    var matches: array<Span>
    var regexp: Option<Regexp>
    var str: Option<string>
    var length: Option<int>

    ghost predicate Valid()
      reads this
    {
      matches.Length == len
    }

    /** mrb_posixmatchdata_generate: a zero-filled table of nmatch spans. */
    constructor Generate(nmatch: nat, offset: nat)
      requires nmatch >= 1
      ensures Valid() && fresh(matches)
      ensures len == nmatch && this.offset == offset
      ensures forall k :: 0 <= k < nmatch ==> matches[k] == Span(0, 0)
      ensures regexp.None? && str.None? && length.None?
    {
      len := nmatch;
      this.offset := offset;
      matches := new Span[nmatch](_ => Span(0, 0));
      regexp, str, length := None, None, None;
    }

    /** regexec() storing its spans into the table it was handed. */
    method Record(spans: seq<Span>)
      requires Valid()
      modifies matches
      ensures forall k :: 0 <= k < len ==>
        matches[k] == if k < |spans| then spans[k] else old(matches[k])
    {
      var n := if |spans| < len then |spans| else len;
      for k := 0 to n
        invariant forall j :: 0 <= j < len ==>
          matches[j] == if j < k then spans[j] else old(matches[j])
      {
        matches[k] := spans[k];
      }
    }

    /** mrb_posixmatchdata_begin as written: nil for n >= len, but a negative
      n passes the guard and indexes before the table. */
    function BeginAsWritten(n: int): (r: Lookup)
      reads this, matches
      requires Valid()
      ensures r.OutOfTable? <==> n < 0
      ensures r.Position? ==> 0 <= n < len && r.value == matches[n].so + offset
    {
      if n >= len then Nil
      else if n < 0 then OutOfTable(n)
      else if matches[n].so == Unset then Nil
      else Position(matches[n].so + offset)
    }

    /** mrb_posixmatchdata_end as written: the guard is n > len, so n == len
      and any negative n index outside the table. */
    function EndAsWritten(n: int): (r: Lookup)
      reads this, matches
      requires Valid()
      ensures r.OutOfTable? <==> n < 0 || n == len
      ensures r.Position? ==> 0 <= n < len && r.value == matches[n].eo + offset
    {
      if n > len then Nil
      else if n < 0 || n == len then OutOfTable(n)
      else if matches[n].eo == Unset then Nil
      else Position(matches[n].eo + offset)
    }

    /** begin(n) with the table bound checked on both sides: the absolute
      byte position where group n starts, or nil. */
    function Begin(n: int): (r: Option<int>)
      reads this, matches
      requires Valid()
      ensures r.Some? <==> 0 <= n < len && matches[n].so != Unset
      ensures r.Some? ==> r.value == matches[n].so + offset
    {
      if n < 0 || n >= len || matches[n].so == Unset then None
      else Some(matches[n].so + offset)
    }

    /** end(n) with the same bound as begin(n): the absolute byte position
      where group n ends, or nil. */
    function End(n: int): (r: Option<int>)
      reads this, matches
      requires Valid()
      ensures r.Some? <==> 0 <= n < len && matches[n].eo != Unset
      ensures r.Some? ==> r.value == matches[n].eo + offset
    {
      if n < 0 || n >= len || matches[n].eo == Unset then None
      else Some(matches[n].eo + offset)
    }
  }

  /** end(len) passes the as-written guard and reads the slot after the
      table; begin(len) is correctly nil. */
  lemma EndReadsPastTable(m: MatchData)
    requires m.Valid()
    ensures m.EndAsWritten(m.len) == OutOfTable(m.len)
    ensures m.BeginAsWritten(m.len) == Nil
  {
  }

  /** Neither as-written accessor rejects a negative index. */
  lemma NegativeIndexPassesGuards(m: MatchData)
    requires m.Valid()
    ensures m.BeginAsWritten(-1) == OutOfTable(-1)
    ensures m.EndAsWritten(-1) == OutOfTable(-1)
  {
  }

  /** Wherever the as-written accessors stay inside the table, the corrected
      ones return the same thing; where they do not, the corrected ones return
      nil. */
  lemma CorrectedAccessorsAgree(m: MatchData, n: int)
    requires m.Valid()
    ensures m.BeginAsWritten(n).Nil? ==> m.Begin(n).None?
    ensures m.BeginAsWritten(n).Position? ==> m.Begin(n) == Some(m.BeginAsWritten(n).value)
    ensures m.BeginAsWritten(n).OutOfTable? ==> m.Begin(n).None?
    ensures m.EndAsWritten(n).Nil? ==> m.End(n).None?
    ensures m.EndAsWritten(n).Position? ==> m.End(n) == Some(m.EndAsWritten(n).value)
    ensures m.EndAsWritten(n).OutOfTable? ==> m.End(n).None?
  {
  }

  /** regexp.match(input, pos): nil, a fresh PosixMatchData, or a raised error.
      Setting $matchdata and $1..$9 is not modelled. */
  method Match(re: Regexp, input: string, pos: nat, engine: Engine) returns (r: Result<Option<MatchData>, Error>)
    ensures match Exec(re, input, pos, engine)
      case Raised(e) => r == Failure(e)
      case NoMatch => r == Success(None)
      case Matched(table, offset) =>
        && r.Success? && r.value.Some?
        && fresh(r.value.value) && fresh(r.value.value.matches)
        && r.value.value.Valid()
        && r.value.value.len == re.nsub + 1
        && r.value.value.offset == offset
        && r.value.value.matches[..] == table
        && r.value.value.regexp == Some(re)
        && r.value.value.str == Some(input)
        && r.value.value.length == Some(re.nsub + 1)
  {
    if pos > |input| {
      return Failure(PosOverTarget);
    }
    var subject := input[pos..];
    var nmatch := re.nsub + 1;
    var m := new MatchData.Generate(nmatch, pos);
    var res := engine.regexec(re.source, re.option, subject, nmatch);
    m.Record(res.spans);
    if res.status == REG_NOMATCH {
      return Success(None);
    } else if res.status != 0 {
      return Failure(RegexpError(engine.regerror(res.status)));
    }
    m.regexp, m.str, m.length := Some(re), Some(input), Some(nmatch);
    assert m.matches[..] == Recorded(nmatch, res.spans);
    return Success(Some(m));
  }
}
