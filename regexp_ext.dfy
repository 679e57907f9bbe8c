/**
 * The Ruby half of PosixRegexp (mrblib/posix-regexp.rb): the compile
 * defaults, equality, case-fold query, and the === and =~ operators, all
 * defined over the compiled value and regexp.match.
 */
module RegexpExt {
  import opened Wrappers
  import opened PosixRegexp

  /** PosixRegexp.compile(string, option = ""): a missing or nil option
      means the empty flag string. */
  function Compile(source: string, option: Option<string>, engine: Engine): (r: Result<Regexp, Error>)
    ensures option.None? ==> r == Construct(source, "", engine)
    ensures option.Some? ==> r == Construct(source, option.value, engine)
  {
    Construct(source, option.GetOr(""), engine)
  }

  /** What an object answers to a method call: a String, a flag word, or a
      value of some other class. */
  datatype Answer = Text(s: string) | FlagWord(f: Flags) | OtherValue(className: string)

  /** The argument of eql? and ==: any object, with what it answers to
      source and to options, or None where it has no such method. */
  datatype Other = Other(className: string, source: Option<Answer>, options: Option<Answer>)

  /** A PosixRegexp as an argument: source and options (the alias of
      option) answer its pattern and its flag word. */
  function AsOther(re: Regexp): Other {
    Other("PosixRegexp", Some(Text(re.source)), Some(FlagWord(re.option)))
  }

  /** The error of calling a method an object does not have. */
  function NoMethod(name: string, className: string): Error {
    NoMethodError("undefined method '" + name + "' for " + className)
  }

  /** eql?: [source, options] == [other.source, other.options]. Both calls
      on other are made first, so an object without source, or without
      options, raises; otherwise the result holds iff other answers the
      same String and the same flag word. */
  function Eql(a: Regexp, other: Other): (r: Result<bool, Error>)
    ensures r.Success? <==> other.source.Some? && other.options.Some?
    ensures other.source.None? ==> r == Failure(NoMethod("source", other.className))
    ensures other.source.Some? && other.options.None? ==> r == Failure(NoMethod("options", other.className))
    ensures r.Success? ==>
      (r.value <==> other.source == Some(Text(a.source)) && other.options == Some(FlagWord(a.option)))
  {
    if other.source.None? then Failure(NoMethod("source", other.className))
    else if other.options.None? then Failure(NoMethod("options", other.className))
    else Success([Text(a.source), FlagWord(a.option)] == [other.source.value, other.options.value])
  }

  /** ==: the same relation as eql?, raising what it raises. */
  function Equal(a: Regexp, other: Other): (r: Result<bool, Error>)
    ensures r == Eql(a, other)
  {
    Eql(a, other)
  }

  /** Between two regexps, eql? never raises and holds iff their sources and
      flag words agree; so it is reflexive and symmetric there. */
  lemma EqlOfRegexps(a: Regexp, b: Regexp)
    ensures Eql(a, AsOther(b)) == Success(a.source == b.source && a.option == b.option)
    ensures Eql(a, AsOther(b)) == Eql(b, AsOther(a))
    ensures Eql(a, AsOther(a)) == Success(true)
  {
  }

  /** casefold?: the REG_ICASE bit of @option is set. */
  function Casefold(re: Regexp): bool {
    ICase in re.option
  }

  /** A compiled regexp folds case exactly when its flag string held an 'i'. */
  lemma CasefoldIffFlagI(source: string, option: Option<string>, engine: Engine)
    requires Compile(source, option, engine).Success?
    ensures Casefold(Compile(source, option, engine).value) <==> 'i' in option.GetOr("")
  {
    ConstructMeaning(source, option.GetOr(""), engine);
  }

  /** Two regexps compiled from the same source are equal iff their flag
      strings agree on whether 'i' and 'm' occur; so "im" equals "mi", and
      "" differs from "mi". */
  lemma EqlIffSameFlags(source: string, f: string, g: string, engine: Engine)
    requires Construct(source, f, engine).Success? && Construct(source, g, engine).Success?
    ensures Eql(Construct(source, f, engine).value, AsOther(Construct(source, g, engine).value)) ==
      Success(('i' in f <==> 'i' in g) && ('m' in f <==> 'm' in g))
  {
    ConstructMeaning(source, f, engine);
    ConstructMeaning(source, g, engine);
    var a, b := Construct(source, f, engine).value, Construct(source, g, engine).value;
    if ('i' in f <==> 'i' in g) && ('m' in f <==> 'm' in g) {
      forall x: RegFlag ensures x in a.option <==> x in b.option {
        match x
        case Extended =>
        case ICase =>
        case NoSub =>
        case Newline =>
      }
      assert a.option == b.option;
    } else if 'i' in f <==> 'i' in g {
      assert Newline in a.option <==> Newline !in b.option;
    } else {
      assert ICase in a.option <==> ICase !in b.option;
    }
  }

  /** regexp === string: true iff match returns match data, false iff it
      returns nil; an error raised by match propagates. */
  method CaseEq(re: Regexp, s: string, engine: Engine) returns (r: Result<bool, Error>)
    ensures Exec(re, s, 0, engine).Raised? <==> r.Failure?
    ensures Exec(re, s, 0, engine).Raised? ==> r.error == Exec(re, s, 0, engine).error
    ensures r.Success? ==> (r.value <==> Exec(re, s, 0, engine).Matched?)
  {
    var m := Match(re, s, 0, engine);
    if m.Failure? {
      return Failure(m.error);
    }
    return Success(m.value.Some?);
  }

  /** regexp =~ string: nil for a nil string or no match, otherwise begin(0)
      of the match, the byte position where the whole match starts. */
  method MatchOperator(re: Regexp, s: Option<string>, engine: Engine) returns (r: Result<Option<int>, Error>)
    ensures s.None? ==> r == Success(None)
    ensures s.Some? ==>
      match Exec(re, s.value, 0, engine)
      case Raised(e) => r == Failure(e)
      case NoMatch => r == Success(None)
      case Matched(table, _) =>
        r == Success(if table[0].so == Unset then None else Some(table[0].so))
  {
    if s.None? {
      return Success(None);
    }
    var m := Match(re, s.value, 0, engine);
    if m.Failure? {
      return Failure(m.error);
    }
    if m.value.None? {
      return Success(None);
    }
    return Success(m.value.value.Begin(0));
  }
}
