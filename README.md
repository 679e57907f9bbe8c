# mruby-posix-regexp in Dafny

A model of the core of the mruby gem mruby-posix-regexp. The gem provides
`PosixRegexp` and `PosixMatchData` for mruby on top of the POSIX regex
library (`regcomp`, `regexec`, `regerror`), together with
`PosixRegexp.quote` and the replacement-string machinery behind
`String#sub`/`#gsub`.

The modules follow the repository's files:

- `Wrappers` (wrappers.dfy): `Option`, `Result`, and the Ruby exception classes the gem raises.
- `PosixRegexp` (posix_regexp.dfy), for src/posix-regexp.c:
  - the translation of a Ruby flag string (`"i"`, `"m"`) into a `regcomp` flag word;
  - compilation, and matching from a byte position;
  - the `PosixMatchData` table of spans, as a class over an array, with its `begin`/`end` accessors.
- `Quote` (quote.dfy), for src/quote.c: the byte-level quoter, written as a loop over an output buffer of twice the input length, and its reading back.
- `RegexpExt` (regexp_ext.dfy), for mrblib/posix-regexp.rb: `compile`, `eql?`, `==`, `===`, `=~` and `casefold?`.
- `ReplaceCapture` (replace_capture.dfy), for mrblib/string_ext.rb:
  - the parser `ReplaceCapture#initialize` that turns a replacement string into template tokens;
  - the expander `#to_s` that fills a template in from a match.
- `StringExt` (string_ext.dfy), for mrblib/string_ext.rb: the index-advance loop of `String#gsub`, which decides which matches are replaced.

The POSIX regex library is a parameter, `PosixRegexp.Engine`. It is a value
holding three uninterpreted functions, so every property holds whatever the
regex engine does. The only exception is `StringExt`: it assumes what POSIX
promises of a successful `regexec`, namely that the whole match lies inside
the subject and does not end before it starts (`StringExt.WholeMatchInside`).

Strings reach the C code through `mrb_get_args` with the `z` specifier.
That specifier rejects strings with an embedded NUL, so `strlen` of an
argument is its length. The C code works on bytes. Outside `Quote`, which
uses a `byte` type, the model writes those byte strings as Dafny `string`s,
and each `char` stands for one byte, so `|s|` is `strlen(s)` and every
position is a byte position. The flag word is modelled as the set of its bits.

## Model

| member | source | states |
|---|---|---|
| PosixRegexp.ApplyFlagChars | src/posix-regexp.c:89-104 | the flag loop over the characters of the flag string: 'i' sets REG_ICASE, 'm' clears REG_NEWLINE, and any other character raises "unsupported flag" at once |
| PosixRegexp.FlagWord | src/posix-regexp.c:89-109 | the flag word regcomp receives: REG_NEWLINE, then the flag loop, then REG_NOSUB for an empty pattern and REG_EXTENDED always |
| PosixRegexp.ApplyFlagCharsMeaning | src/posix-regexp.c:89-104 | the flag loop accepts exactly the strings over {i, m}; the result sets REG_ICASE iff an 'i' occurs and keeps REG_NEWLINE iff no 'm' occurs |
| PosixRegexp.FlagWordMeaning | src/posix-regexp.c:89-109 | the flag word always has REG_EXTENDED, has REG_NOSUB iff the pattern is empty, REG_ICASE iff 'i' occurs, REG_NEWLINE iff no 'm' occurs; any other character raises "unsupported flag" |
| PosixRegexp.FlagWordDependsOnlyOnCharacters | src/posix-regexp.c:90-104 | flag strings with the same set of characters give the same flag word or the same error ("im" as "mi", "mm" as "m") |
| PosixRegexp.TranslateFlags | src/posix-regexp.c:89-109 | the imperative flag loop computes the flag word of FlagWord, or raises "unsupported flag" |
| PosixRegexp.Initialize | src/posix-regexp.c:87-126 | PosixRegexp.new returns the regexp Construct describes: flags translated first, then regcomp, whose error is raised through regerror |
| PosixRegexp.UnsupportedFlagRaisesBeforeCompile | src/posix-regexp.c:100-111 | with an unsupported flag character the error is "unsupported flag" whatever the regex engine does: regcomp is never reached |
| PosixRegexp.Construct | src/posix-regexp.c:87-126 | PosixRegexp.new: the flag error first, then regcomp's error through regerror, otherwise a regexp recording the pattern, the flag word and re_nsub |
| PosixRegexp.ConstructMeaning | src/posix-regexp.c:89-126 | a regexp is built iff the flags are supported and regcomp succeeds; it records the pattern, the flag word with its four properties, and re_nsub |
| PosixRegexp.Recorded | src/posix-regexp.c:145-149 | the table regexec leaves: nmatch slots, the engine's spans in the first ones and calloc's zeroes in the rest |
| PosixRegexp.Exec | src/posix-regexp.c:140-170 | a successful match yields a table of re_nsub + 1 spans with the start position as offset |
| PosixRegexp.ExecDispatch | src/posix-regexp.c:140-170 | pos beyond the string raises "pos goes over target string"; otherwise status 0 gives match data, REG_NOMATCH gives nil, and any other status raises regerror's message |
| PosixRegexp.MatchData.Generate | src/posix-regexp.c:189-204 | a new match data has len == nmatch, the given offset, a zero-filled table of nmatch spans, and no @regexp, @string or @length yet |
| PosixRegexp.MatchData.Record | src/posix-regexp.c:149 | regexec stores its spans into the first slots of the table and leaves the others as they were |
| PosixRegexp.MatchData.BeginAsWritten | src/posix-regexp.c:206-223 | begin(n) as written is nil for n >= len or an unset span, else span start + offset; every negative n reads outside the table |
| PosixRegexp.MatchData.EndAsWritten | src/posix-regexp.c:227-244 | end(n) as written is nil for n > len or an unset span, else span end + offset; n == len and every negative n read outside the table |
| PosixRegexp.MatchData.Begin | src/posix-regexp.c:206-223 | begin(n) is some position iff 0 <= n < len and group n took part, and then it is the span start plus the offset |
| PosixRegexp.MatchData.End | src/posix-regexp.c:227-244 | end(n) is some position iff 0 <= n < len and group n took part, and then it is the span end plus the offset |
| PosixRegexp.EndReadsPastTable | src/posix-regexp.c:236-239 | end(len) passes the guard and reads the slot after the table, where begin(len) is nil |
| PosixRegexp.NegativeIndexPassesGuards | src/posix-regexp.c:206-244 | begin(-1) and end(-1) pass the guards and read before the table |
| PosixRegexp.CorrectedAccessorsAgree | src/posix-regexp.c:206-244 | wherever the accessors as written stay inside the table the corrected ones return the same; elsewhere the corrected ones return nil |
| PosixRegexp.Match | src/posix-regexp.c:131-187 | match(input, pos) raises for pos beyond the input, returns nil on REG_NOMATCH, raises regerror's message on other errors, and otherwise returns a fresh match data holding exactly Exec's table, offset pos, @regexp, @string and @length == nmatch |
| Quote.Escape | src/quote.c:23-78 | what the switch writes for one byte: a backslash and the byte for the sixteen metacharacters and space, a backslash and t, n, r, f or v for the five control bytes, the byte itself otherwise |
| Quote.EscapeMeaning | src/quote.c:23-78 | one input byte becomes two bytes, a backslash and a byte that reads back as it, iff it is one of the sixteen metacharacters, a space, or one of tab, LF, CR, FF, VT; otherwise it is copied |
| Quote.Quoted | src/quote.c:22-79 | the output of the whole loop: the escapes of the input bytes, left to right |
| Quote.QuotedAppend | src/quote.c:22-79 | quoting works byte by byte: quoting a concatenation concatenates the quoted parts |
| Quote.QuotedLength | src/quote.c:16-81 | the quoted string is between one and two times the input's length, and equals the input iff no byte needs escaping |
| Quote.UnquoteQuoted | src/quote.c:22-79 | quoting is reversible: reading the quoted string back gives the input |
| Quote.QuotedSnoc | src/quote.c:22-79 | one more turn of the loop appends the escape of the next byte to what was written so far |
| Quote.Put | src/quote.c:30-31 | one `t[0] = b; t += 1` step: the byte is written at the cursor, after what was written before, and the cursor moves one forward |
| Quote.QuoteByte | src/quote.c:23-78 | one turn of the switch writes exactly the escape of the current byte after what was already written, and moves the cursor one or two bytes forward |
| Quote.QuoteBytes | src/quote.c:6-83 | the buffer loop writes exactly the quoted form of the input, and never more than twice its length |
| RegexpExt.Compile | mrblib/posix-regexp.rb:5-7 | compile(string, option) is new(string, option), with a missing or nil option read as "" |
| RegexpExt.Eql | mrblib/posix-regexp.rb:12-14 | eql? calls source and options on any argument: one without source, or with source but without options, raises NoMethodError; otherwise it holds iff the argument answers this regexp's source String and flag word |
| RegexpExt.Equal | mrblib/posix-regexp.rb:16-18 | == gives what eql? gives, raising what it raises |
| RegexpExt.EqlOfRegexps | mrblib/posix-regexp.rb:9-14 | between two regexps eql? never raises and holds iff their sources and flag words agree; so it is reflexive and symmetric there |
| RegexpExt.Casefold | mrblib/posix-regexp.rb:30-32 | casefold? tests the REG_ICASE bit of @option |
| RegexpExt.CasefoldIffFlagI | mrblib/posix-regexp.rb:30-32 | casefold? holds of a compiled regexp iff its flag string contained 'i' |
| RegexpExt.EqlIffSameFlags | mrblib/posix-regexp.rb:12-14 | two regexps with one source are eql? (without raising) iff their flag strings agree on containing 'i' and on containing 'm' |
| RegexpExt.CaseEq | mrblib/posix-regexp.rb:20-22 | === is true iff match returns match data, false iff it returns nil, and raises what match raises |
| RegexpExt.MatchOperator | mrblib/posix-regexp.rb:24-28 | =~ is nil for nil or no match, else the absolute start of the whole match, and raises what match raises |
| ReplaceCapture.IndexFrom | mrblib/string_ext.rb:116 | string.index(c, from) is the first position at or after from holding c, or nil when there is none |
| ReplaceCapture.Turn | mrblib/string_ext.rb:105-146 | one turn of the `case c` in initialize, with the '>' of "\k<" searched for from a given position: each branch's change to i, the escape flag and the template |
| ReplaceCapture.StepAsWritten | mrblib/string_ext.rb:113-119 | the turn as written, which searches for the '>' from the start of the replacement string |
| ReplaceCapture.RunAsWritten | mrblib/string_ext.rb:105-147 | up to a given number of turns of the loop as written, stopping at the end of the string or at the first error |
| ReplaceCapture.Step | mrblib/string_ext.rb:105-146 | a turn of the parser loop, with the '>' searched for after "\k<", always moves i forward and only appends to the template |
| ReplaceCapture.StepAgreesWhenNoEarlyClose | mrblib/string_ext.rb:113-119 | when no '>' comes before a "\k<", the turn as written and the corrected turn agree |
| ReplaceCapture.LoopingTemplateCycle | mrblib/string_ext.rb:113-119 | on ">1\k<", three turns as written return to i = 3 with the escape flag set |
| ReplaceCapture.LoopingTemplateNeverEnds | mrblib/string_ext.rb:105-147 | on ">1\k<", the loop as written never reaches the end of the string, however many turns it is given |
| ReplaceCapture.ParseFrom | mrblib/string_ext.rb:105-147 | the template the corrected loop builds from a state to the end of the string, or the error it raises |
| ReplaceCapture.Parse | mrblib/string_ext.rb:98-147 | ReplaceCapture.new: TypeError for an argument that is not a String, otherwise the corrected loop from i = 0 with the escape flag clear and an empty template |
| ReplaceCapture.Initialize | mrblib/string_ext.rb:98-148 | the parser loop builds exactly the template of Parse, raises TypeError for a non-String, and raises for a "\k<" with no closing '>' |
| ReplaceCapture.ParsePlain | mrblib/string_ext.rb:105-147 | without a backslash every character becomes a literal token of its own |
| ReplaceCapture.OpenEscape | mrblib/string_ext.rb:108-112 | a backslash outside an escape adds nothing to the template and only sets the escape flag |
| ReplaceCapture.EscapedTurn | mrblib/string_ext.rb:105-146 | after an opening backslash, the parse goes on from whatever the turn on the next character yields |
| ReplaceCapture.EscapedDigit | mrblib/string_ext.rb:108-132 | "\d" is a reference to group d and clears the escape flag |
| ReplaceCapture.EscapedBackslash | mrblib/string_ext.rb:108-112 | "\\" is one literal backslash and clears the escape flag |
| ReplaceCapture.TrailingBackslash | mrblib/string_ext.rb:105-112 | a lone trailing backslash adds nothing |
| ReplaceCapture.EscapedSpecial | mrblib/string_ext.rb:133-138 | "\`", "\'", "\+" and "\&" are special tokens, and the escape flag stays set after them |
| ReplaceCapture.EscapedOther | mrblib/string_ext.rb:139-144 | any other escaped character is pushed twice and clears the escape flag |
| ReplaceCapture.NamedReference | mrblib/string_ext.rb:113-119 | "\k<name>" is a named reference to the text up to the next '>' with the escape flag left set; with no '>' the parser raises "invalid group name reference format" |
| ReplaceCapture.ExpandToken | mrblib/string_ext.rb:153-179 | the text one template token adds: group n (nil as ""), pre_match, post_match, the last capture, the whole match, a named group, or a literal; TypeError on a nil where a String is needed and IndexError for an unknown name |
| ReplaceCapture.Expansion | mrblib/string_ext.rb:150-182 | the texts of a template's tokens concatenated in order, or the first error |
| ReplaceCapture.ExpansionAppend | mrblib/string_ext.rb:150-182 | expanding a concatenated template concatenates the expansions, and the first error wins |
| ReplaceCapture.ExpandLiterals | mrblib/string_ext.rb:177-179 | literal tokens expand to their own characters |
| ReplaceCapture.PlainTemplateRoundTrip | mrblib/string_ext.rb:98-182 | a replacement string without a backslash parses to literals and is reproduced verbatim whatever the match |
| ReplaceCapture.EscapedDigitExpands | mrblib/string_ext.rb:153-159 | "\d" expands to group d, or to nothing when that group is nil |
| ReplaceCapture.ToS | mrblib/string_ext.rb:150-182 | to_s appends the tokens' texts in order: groups (nil as ""), pre_match, post_match, the last capture, the whole match, named groups; nil raises TypeError and an unknown name raises IndexError |
| StringExt.WholeMatchBounds | mrblib/string_ext.rb:45-47 | under POSIX's promise, the whole match found from index lies between index and the end of the string |
| StringExt.WholeMatchFrom | mrblib/string_ext.rb:45-47 | the whole match that match(self, index) followed by begin(0) and end(0) reads lies between index and the end of the string |
| StringExt.WholeMatchOf | mrblib/string_ext.rb:45-47 | begin(0) and end(0) of the match data that match returns are set, and they are the whole match of WholeMatchFrom |
| StringExt.MatchWhole | mrblib/string_ext.rb:45-47 | calling match and then begin(0) and end(0) yields the whole match of WholeMatchFrom, nil on no match, or what match raises |
| StringExt.Scan | mrblib/string_ext.rb:43-55 | the whole matches the loop visits from index on, or what match raises, for the loop as written and for the loop with either correction |
| StringExt.GsubScanAsWritten | mrblib/string_ext.rb:43-55 | the loop as written from index 0: no stop at the end of the string, and index moved onto an empty match found after it |
| StringExt.GsubScan | mrblib/string_ext.rb:43-55 | the corrected loop from index 0: it stops once index passes the end of the string and steps one past every empty match |
| StringExt.Advance | mrblib/string_ext.rb:47-51 | after a match [b, e) found from index, the loop moves at least one position forward: to e, or to index + 1 after an empty match at index |
| StringExt.AdvancePastEmpty | mrblib/string_ext.rb:47-51 | the corrected step after a match [b, e) found from index: at least one position forward, to e, or to b + 1 after an empty match |
| StringExt.ScanOrdered | mrblib/string_ext.rb:45-55 | the matches the loop visits lie inside the string, do not overlap, and come in order |
| StringExt.ScanStrictlyOrdered | mrblib/string_ext.rb:45-55 | a loop that steps past empty matches visits matches inside the string whose starts strictly increase and which do not overlap, so none is visited twice |
| StringExt.AsWrittenRaisesAfterEmptyMatchAtEnd | mrblib/string_ext.rb:45-55 | a loop without the end check visits the same matches as the same loop with it, unless an empty match at the end came last; then it raises "pos goes over target string" |
| StringExt.EmptyMatcherVisitsEveryPosition | mrblib/string_ext.rb:45-55 | with a pattern matching the empty string everywhere, the stopping loop visits every position including the end, and the loop as written raises |
| StringExt.GsubEmptyPatternRaises | mrblib/string_ext.rb:45-55 | gsub with a pattern such as /()/ raises as written, on every string, where the stopping loop visits all positions |
| StringExt.EmptyMatchAtEndVisitedTwice | mrblib/string_ext.rb:47-51 | with a pattern such as /$/ on a non-empty string, moving index onto the empty match found after it visits that match twice even with the end check, and the corrected loop visits it once |
| StringExt.GsubMatches | mrblib/string_ext.rb:43-55 | the gsub loop, with index checked against the string's length and moved one past an empty match, visits exactly the matches of GsubScan, or raises what match raises |

## Left out

- The regex engine itself: `regcomp`, `regexec` and `regerror` are uninterpreted functions of `PosixRegexp.Engine`. The `regex_t` is identified by its pattern and flag word, and `regfree` and the memory management around it are not modelled.
- The numeric values of `REG_ICASE`, `REG_NEWLINE`, `REG_NOSUB`, `REG_EXTENDED` and `REG_NOMATCH` are not modelled. Flags are distinct abstract bits, and `REG_NOMATCH` is a nonzero constant. The `REG_ICASE` and `REG_NEWLINE` constants exported to Ruby are the corresponding bits.
- The "initialize cannot be called twice" guard (src/posix-regexp.c:80-83) and the `@__debug_nmatch` instance variable are not modelled. A `Regexp` value is always initialised once.
- `$matchdata` and `$1`..`$9` (src/posix-regexp.c:155-158, 180-183) are not modelled, because global variables are not part of this model. The reset loop at line 156 tests `!match_gv_names[i]`, which is never true for an array row, so it never runs. The loop at line 181 is bounded only by `nmatch - 1`.
- PosixRegexp.Match: negative `pos` is excluded by its type (`nat`). The C code would move the input pointer backwards.
- UTF-8 handling is not modelled. Positions are byte positions, as in the C code. Character/byte translation that callers may expect is not part of the code modelled.
- PosixRegexp.MatchData.Begin: returns nil for `n >= len` and for a negative `n`, not the `IndexError` that test/posixregexp_test.rb:77-78 expects for `begin(4)` and `begin(-1)` on four groups. It follows the code's own nil path for `pos >= len` (src/posix-regexp.c:215-216), and the code raises `IndexError` nowhere.
- PosixRegexp.MatchData.End: returns nil for `n >= len` and for a negative `n`, not the `IndexError` that test/posixregexp_test.rb:87-88 expects for `end(4)` and `end(-1)`. It uses the same bound as `begin`'s nil path.
- RegexpExt.Eql: what `other.source` and `other.options` answer is a String, a flag word, or a value of another class that compares unequal to both. A value with its own `==` or `to_str` is not modelled. The NoMethodError message is written as "undefined method 'source' for <class>"; mruby's exact wording is not modelled.
- RegexpExt.Equal: the same limits as `RegexpExt.Eql`.
- `PosixRegexp.quote` on a non-String: the argument's `source` is quoted instead. That call into Ruby is not modelled, and `Quote.QuoteBytes` covers the String path.
- `PosixRegexp#inspect` is not modelled, because it only calls `gsub`.
- `String#scan`, `#sub`, `#sub!`, `#gsub!` and `=~` are not modelled. The result string that `#gsub` builds is not modelled either. They rely on `PosixMatchData#pre_match`, `#post_match`, `#captures`, `#[]` and `#to_s`, which are not part of this model. `ReplaceCapture.MatchView` stands for what `to_s` reads from them.
- StringExt.GsubMatches: `m.to_s.length` is taken as the byte length `end(0) - begin(0)` of the whole match. This is exact for single-byte text.
- StringExt.GsubMatches: the `break if m.begin(0) - index < 0` guard is not modelled. Under `WholeMatchInside` a match found from `index` never begins before it (`StringExt.WholeMatchBounds`), so the guard never fires.
- StringExt.ScanOrdered: states that match starts never decrease, not that they strictly increase, because it covers the loop as written. That loop moves `index` to the end of an empty match found after `index`, so the next call of `match` visits that empty match again (see "## Findings"). `StringExt.ScanStrictlyOrdered` states strict order for the corrected loop.
- StringExt.AsWrittenRaisesAfterEmptyMatchAtEnd: states one direction only: where the two loops differ, the loop without the end check raises. An engine that reports an empty match at the end from an earlier index, but none from the end itself, makes the two loops agree even then.
- ReplaceCapture.Initialize: models the corrected search for '>' (from just after "\k<"). The search as written is `ReplaceCapture.StepAsWritten` with the lemmas about it.
- PosixRegexp.Exec: `@string` is the whole input string, rebuilt from the C pointer. It is modelled as the input.

## Findings

| source | as written | input that shows it | evidently intended | confidence | as-written member | corrected member |
|---|---|---|---|---|---|---|
| src/posix-regexp.c:236 | `end` rejects only `pos > len`, so `end(len)` reads `matches[len]`, one slot past the table | `m.end(m.length)` on any match data | `IndexError` for `pos >= len`, which test/posixregexp_test.rb:87 expects for `end(4)` on four groups; the corrected accessor returns nil there, following the code's own `pos >= len` nil path in `begin` (src/posix-regexp.c:215-216) | high, not executed | PosixRegexp.EndReadsPastTable | PosixRegexp.MatchData.End |
| src/posix-regexp.c:215 | neither `begin` nor `end` rejects a negative index, which indexes before the table | `m.begin(-1)`, `m.end(-1)` | `IndexError` for a negative index, which test/posixregexp_test.rb:78 and :88 expect for `begin(-1)` and `end(-1)`; the corrected accessors return nil there, as the code already does for `pos >= len` (src/posix-regexp.c:215-216) | high, not executed | PosixRegexp.NegativeIndexPassesGuards | PosixRegexp.CorrectedAccessorsAgree |
| mrblib/string_ext.rb:116 | the closing '>' of `\k<name>` is searched for in the whole replacement string, so a '>' earlier in it sends `i` backwards | the replacement `">1\k<"`: `ReplaceCapture.new` never returns | search from just after `\k<` | high, not executed | ReplaceCapture.LoopingTemplateNeverEnds | ReplaceCapture.Step |
| mrblib/string_ext.rb:47-53 | after an empty match at the end of the string, `index` moves past the end and the next `match(self, index)` raises "pos goes over target string" | `"123456789".gsub(/()/, ",")`, for which test/posixregexp_test.rb:163 expects `",1,2,3,4,5,6,7,8,9,"` | stop once `index` passes the end of the string | high, not executed | StringExt.GsubEmptyPatternRaises | StringExt.GsubMatches |
| mrblib/string_ext.rb:47-51 | `len` is `end(0) - index` and becomes 1 only when it is 0, so after an empty match found after `index`, `index` moves onto that match and the next call of `match` finds the same empty match again | `"ab".gsub(/$/, "!")`: with the end check of the row above, the empty match at 2 is replaced twice, giving `"ab!!"`; as written the loop then raises | step one past an empty match, giving `"ab!"` | high, not executed | StringExt.EmptyMatchAtEndVisitedTwice | StringExt.ScanStrictlyOrdered |
