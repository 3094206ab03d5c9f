/** The result handling of Poco's RegularExpression
    (Foundation/src/RegularExpression.cpp, Foundation/include/Poco/RegularExpression.h)
    on top of PCRE's matcher.

    The PCRE library itself is not part of this model. A compiled pattern is a
    `Matcher`: given the subject, the start offset and the options that reach
    PCRE, it gives pcre_exec's return code and its output vector. `Sound`
    states what PCRE guarantees about that vector, and every operation here
    assumes it of the matcher it is given. */
module RegularExpression {
  import opened Wrappers

  // The Options enum.
  const RE_CASELESS: bv32        := 0x00001
  const RE_MULTILINE: bv32       := 0x00002
  const RE_DOTALL: bv32          := 0x00004
  const RE_EXTENDED: bv32        := 0x00004
  const RE_ANCHORED: bv32        := 0x00010
  const RE_DOLLAR_ENDONLY: bv32  := 0x00020
  const RE_EXTRA: bv32           := 0x00040
  const RE_NOTBOL: bv32          := 0x00080
  const RE_NOTEOL: bv32          := 0x00100
  const RE_UNGREEDY: bv32        := 0x00200
  const RE_NOTEMPTY: bv32        := 0x00400
  const RE_UTF8: bv32            := 0x00800
  const RE_NO_AUTO_CAPTURE: bv32 := 0x01000
  const RE_NO_UTF8_CHECK: bv32   := 0x02000
  const RE_GLOBAL: bv32          := 0x10000
  const RE_NO_VARS: bv32         := 0x20000

  /** The part of the options handed to pcre_exec. */
  const PCRE_MASK: bv32 := 0xFFFF

  /** The options the static match gives to the constructor and to the match. */
  const CTOR_OPTIONS: bv32 := RE_CASELESS | RE_MULTILINE | RE_DOTALL | RE_EXTENDED | RE_ANCHORED
    | RE_DOLLAR_ENDONLY | RE_EXTRA | RE_UNGREEDY | RE_UTF8 | RE_NO_AUTO_CAPTURE
  const MATCH_OPTIONS: bv32 := RE_ANCHORED | RE_NOTBOL | RE_NOTEOL | RE_NOTEMPTY | RE_NO_AUTO_CAPTURE | RE_NO_UTF8_CHECK

  /** Size of the output vector, and pcre.h's two named error codes. */
  const OVEC_SIZE: nat := 64
  const PCRE_ERROR_NOMATCH: int := -1
  const PCRE_ERROR_BADOPTION: int := -3

  /** std::string::npos, and the wrap-around of std::string::size_type. */
  const NPOS: nat := 0xFFFF_FFFF_FFFF_FFFF
  function SizeT(x: int): (r: nat)
    ensures r < NPOS + 1
    ensures 0 <= x <= NPOS ==> r == x
  {
    x % (NPOS + 1)
  }

  /** A captured substring: its offset (NPOS if the subexpression did not
      take part in the match) and its length. */
  datatype Match = Match(offset: nat, length: nat)

  /** What pcre_exec returns: the return code and the output vector. */
  datatype PcreResult = PcreResult(rc: int, ovec: seq<int>)

  /** A compiled pattern: subject, start offset, options -> pcre_exec's result. */
  type Matcher = (string, nat, bv32) -> PcreResult

  /** The RegularExpressionException messages, and the two further ways the
      source's substitution can end without a result: std::out_of_range from
      std::string::append, and a loop that never ends. */
  datatype RegexError =
    | BadOption
    | TooManySubstrings
    | PcreError(rc: int)
    | CompileError(message: string)
    | OutOfRange
    | Diverges

  /** The largest value of the C int entries of the output vector. */
  const INT_MAX: nat := 0x7FFF_FFFF

  /** Group i of the output vector is unset (-1, -1) or lies within 0..n. */
  ghost predicate GroupFits(ovec: seq<int>, i: nat, n: nat)
    requires 2 * i + 1 < |ovec|
  {
    || (ovec[2 * i] == -1 && ovec[2 * i + 1] == -1)
    || (0 <= ovec[2 * i] <= ovec[2 * i + 1] <= n && ovec[2 * i + 1] <= INT_MAX)
  }

  /** The groups of a successful result all fit in a subject of length n. */
  ghost predicate GroupsFit(e: PcreResult, n: nat)
  {
    && |e.ovec| == OVEC_SIZE
    && 0 < e.rc <= OVEC_SIZE / 3
    && forall i :: 0 <= i < e.rc ==> GroupFits(e.ovec, i, n)
  }

  /** What PCRE guarantees about one call: a vector of OVEC_SIZE entries and,
      on success, at most OVEC_SIZE / 3 groups that lie in the subject, a
      whole match that starts at or after the offset, at the offset when
      anchored, and is not empty under RE_NOTEMPTY. */
  ghost predicate Fits(e: PcreResult, subject: string, offset: nat, options: bv32)
  {
    && |e.ovec| == OVEC_SIZE
    && (e.rc > 0 ==>
         && GroupsFit(e, |subject|)
         && offset <= e.ovec[0] <= e.ovec[1] <= |subject|
         && (options & RE_ANCHORED != 0 ==> e.ovec[0] == offset)
         && (options & RE_NOTEMPTY != 0 ==> e.ovec[0] < e.ovec[1]))
  }

  ghost predicate Sound(exec: Matcher)
  {
    forall subject: string, offset: nat, options: bv32 ::
      offset <= |subject| ==> Fits(exec(subject, offset, options), subject, offset, options)
  }

  /** The call pcre_exec(..., options & 0xFFFF, ovec, OVEC_SIZE). */
  function Exec(exec: Matcher, subject: string, offset: nat, options: bv32): (e: PcreResult)
    requires Sound(exec) && offset <= |subject|
    ensures Fits(e, subject, offset, options & PCRE_MASK)
  {
    exec(subject, offset, options & PCRE_MASK)
  }

  /** The exception a return code raises, if any: every negative code but
      PCRE_ERROR_NOMATCH, and 0 (the vector was too small). */
  function ExecError(rc: int): (err: Option<RegexError>)
    ensures err.None? <==> rc > 0 || rc == PCRE_ERROR_NOMATCH
  {
    if rc == PCRE_ERROR_NOMATCH then None
    else if rc == PCRE_ERROR_BADOPTION then Some(BadOption)
    else if rc == 0 then Some(TooManySubstrings)
    else if rc < 0 then Some(PcreError(rc))
    else None
  }

  /** Group i of the output vector as a Match, in size_type arithmetic: an
      unset group becomes (npos, 0), a set one its offset and length. */
  function MatchAt(ovec: seq<int>, i: nat): (m: Match)
    requires 2 * i + 1 < |ovec|
    ensures ovec[2 * i] == -1 && ovec[2 * i + 1] == -1 ==> m == Match(NPOS, 0)
    ensures 0 <= ovec[2 * i] <= ovec[2 * i + 1] <= NPOS ==> m == Match(ovec[2 * i], ovec[2 * i + 1] - ovec[2 * i])
  {
    var offset: nat := if ovec[2 * i] < 0 then NPOS else ovec[2 * i];
    Match(offset, SizeT(ovec[2 * i + 1] - offset))
  }

  /** The result of the Match overload of match: its return value and mtch. */
  datatype MatchResult = MatchResult(rc: int, first: Match)

  /** match(subject, offset, mtch, options). */
  function MatchOne(exec: Matcher, subject: string, offset: nat, options: bv32): (res: Result<MatchResult, RegexError>)
    requires Sound(exec) && offset <= |subject|
    ensures var e := Exec(exec, subject, offset, options);
      res.Ok? <==> e.rc > 0 || e.rc == PCRE_ERROR_NOMATCH
    ensures var e := Exec(exec, subject, offset, options);
      e.rc == PCRE_ERROR_BADOPTION ==> res == Err(BadOption)
    ensures var e := Exec(exec, subject, offset, options);
      e.rc == 0 ==> res == Err(TooManySubstrings)
    ensures var e := Exec(exec, subject, offset, options);
      e.rc == PCRE_ERROR_NOMATCH ==> res == Ok(MatchResult(0, Match(NPOS, 0)))
    ensures var e := Exec(exec, subject, offset, options);
      e.rc > 0 ==> res == Ok(MatchResult(e.rc, Match(e.ovec[0], e.ovec[1] - e.ovec[0])))
  {
    var e := Exec(exec, subject, offset, options);
    var err := ExecError(e.rc);
    if err.Some? then Err(err.value)
    else if e.rc == PCRE_ERROR_NOMATCH then Ok(MatchResult(0, Match(NPOS, 0)))
    else
      assert GroupFits(e.ovec, 0, |subject|);
      Ok(MatchResult(e.rc, MatchAt(e.ovec, 0)))
  }

  /** match(subject, mtch, options): the search from offset 0. */
  function MatchOneFromStart(exec: Matcher, subject: string, options: bv32): (res: Result<MatchResult, RegexError>)
    requires Sound(exec)
    ensures res == MatchOne(exec, subject, 0, options)
  {
    MatchOne(exec, subject, 0, options)
  }

  /** match(subject, offset, matches, options): clears the vector, then, on
      success, pushes one Match per group the return code counts. */
  method MatchAll(exec: Matcher, subject: string, offset: nat, options: bv32)
    returns (res: Result<int, RegexError>, matches: seq<Match>)
    requires Sound(exec) && offset <= |subject|
    ensures res.Ok? <==> MatchOne(exec, subject, offset, options).Ok?
    ensures res.Ok? ==> res.value == MatchOne(exec, subject, offset, options).value.rc
    ensures res.Err? ==> res.error == MatchOne(exec, subject, offset, options).error
    ensures res.Ok? ==> |matches| == res.value
    ensures res.Err? ==> matches == []
    ensures var e := Exec(exec, subject, offset, options);
      forall i :: 0 <= i < |matches| ==> 2 * i + 1 < |e.ovec| && matches[i] == MatchAt(e.ovec, i)
    ensures |matches| > 0 ==> matches[0] == MatchOne(exec, subject, offset, options).value.first
  {
    matches := [];
    var e := Exec(exec, subject, offset, options);
    var err := ExecError(e.rc);
    if err.Some? {
      return Err(err.value), matches;
    }
    if e.rc == PCRE_ERROR_NOMATCH {
      return Ok(0), matches;
    }
    var i := 0;
    while i < e.rc
      invariant 0 <= i <= e.rc
      invariant |matches| == i
      invariant forall k :: 0 <= k < i ==> matches[k] == MatchAt(e.ovec, k)
    {
      var m := MatchAt(e.ovec, i);
      matches := matches + [m];
      i := i + 1;
    }
    res := Ok(e.rc);
  }

  /** match(subject, offset, options): true iff the match found starts at
      the offset and runs to the end of the subject. */
  function MatchesWith(exec: Matcher, subject: string, offset: nat, options: bv32): (res: Result<bool, RegexError>)
    requires Sound(exec) && offset <= |subject|
    ensures res.Ok? <==> MatchOne(exec, subject, offset, options).Ok?
    ensures res.Err? ==> res.error == MatchOne(exec, subject, offset, options).error
    ensures var e := Exec(exec, subject, offset, options);
      |subject| < NPOS ==> (res == Ok(true) <==> e.rc > 0 && e.ovec[0] == offset && e.ovec[1] == |subject|)
  {
    var m :- MatchOne(exec, subject, offset, options);
    Ok(m.first.offset == offset && m.first.length == |subject| - offset)
  }

  /** match(subject, offset): anchored at the offset and never empty, so it
      holds iff PCRE matches the whole rest of the subject, which cannot be
      empty. */
  function Matches(exec: Matcher, subject: string, offset: nat): (res: Result<bool, RegexError>)
    requires Sound(exec) && offset <= |subject|
    ensures res == MatchesWith(exec, subject, offset, RE_ANCHORED | RE_NOTEMPTY)
    ensures |subject| < NPOS && res == Ok(true) ==> offset < |subject|
    ensures var e := Exec(exec, subject, offset, RE_ANCHORED | RE_NOTEMPTY);
      |subject| < NPOS ==> (res == Ok(true) <==> e.rc > 0 && e.ovec[1] == |subject|)
  {
    AnchoredNotEmptyReachPcre();
    MatchesWith(exec, subject, offset, RE_ANCHORED | RE_NOTEMPTY)
  }

  lemma AnchoredNotEmptyReachPcre()
    ensures (RE_ANCHORED | RE_NOTEMPTY) & PCRE_MASK & RE_ANCHORED != 0
    ensures (RE_ANCHORED | RE_NOTEMPTY) & PCRE_MASK & RE_NOTEMPTY != 0
  {
  }

  /** The text a Match denotes: the substring, or "" for an unset group. */
  function Captured(subject: string, m: Match): string
    requires m.offset == NPOS || m.offset + m.length <= |subject|
  {
    if m.offset == NPOS then "" else subject[m.offset..m.offset + m.length]
  }

  /** extract(subject, offset, str, options): the return code, and str: the
      whole match, "" when there is none, or str untouched when match throws. */
  function Extract(exec: Matcher, subject: string, offset: nat, str: string, options: bv32): (res: (Result<int, RegexError>, string))
    requires Sound(exec) && offset <= |subject|
    ensures res.0.Ok? <==> MatchOne(exec, subject, offset, options).Ok?
    ensures res.0.Err? ==> res == (Err(MatchOne(exec, subject, offset, options).error), str)
    ensures var e := Exec(exec, subject, offset, options);
      e.rc > 0 ==> res == (Ok(e.rc), subject[e.ovec[0]..e.ovec[1]])
    ensures var e := Exec(exec, subject, offset, options);
      e.rc == PCRE_ERROR_NOMATCH ==> res == (Ok(0), "")
  {
    var e := Exec(exec, subject, offset, options);
    assert e.rc > 0 ==> GroupFits(e.ovec, 0, |subject|);
    match MatchOne(exec, subject, offset, options)
    case Err(err) => (Err(err), str)
    case Ok(m) => (Ok(m.rc), Captured(subject, m.first))
  }

  /** extract(subject, str, options): the offset-0 overload. */
  function ExtractFromStart(exec: Matcher, subject: string, str: string, options: bv32): (res: (Result<int, RegexError>, string))
    requires Sound(exec)
    ensures res == Extract(exec, subject, 0, str, options)
  {
    match MatchOne(exec, subject, 0, options)
    case Err(err) => (Err(err), str)
    case Ok(m) => (Ok(m.rc), Captured(subject, m.first))
  }

  /** The strings split yields: one per group of a successful match, the
      group's text or "" when it is unset; none otherwise. */
  ghost function SplitStrings(exec: Matcher, subject: string, offset: nat, options: bv32): (ss: seq<string>)
    requires Sound(exec) && offset <= |subject|
    ensures var e := Exec(exec, subject, offset, options);
      |ss| == if e.rc > 0 then e.rc else 0
  {
    var e := Exec(exec, subject, offset, options);
    if e.rc > 0 then seq(e.rc, i requires 0 <= i < e.rc => GroupText(subject, e, i))
    else []
  }

  /** The text of group i of a successful result, "" when it is unset. */
  ghost function GroupText(subject: string, e: PcreResult, i: nat): string
    requires GroupsFit(e, |subject|) && i < e.rc
  {
    assert GroupFits(e.ovec, i, |subject|);
    if e.ovec[2 * i] < 0 then "" else subject[e.ovec[2 * i]..e.ovec[2 * i + 1]]
  }

  /** Element i of the split strings is the text of the Match for group i. */
  lemma SplitStringsAt(exec: Matcher, subject: string, offset: nat, options: bv32, i: nat)
    requires Sound(exec) && offset <= |subject|
    requires i < Exec(exec, subject, offset, options).rc
    ensures var e := Exec(exec, subject, offset, options);
      var m := MatchAt(e.ovec, i);
      && (m.offset == NPOS || m.offset + m.length <= |subject|)
      && SplitStrings(exec, subject, offset, options)[i] == Captured(subject, m)
  {
    var e := Exec(exec, subject, offset, options);
    assert GroupFits(e.ovec, i, |subject|);
    assert SplitStrings(exec, subject, offset, options)[i] == GroupText(subject, e, i);
    if e.ovec[2 * i] < 0 {
      assert MatchAt(e.ovec, i) == Match(NPOS, 0);
    } else {
      assert MatchAt(e.ovec, i) == Match(e.ovec[2 * i], e.ovec[2 * i + 1] - e.ovec[2 * i]);
    }
  }

  /** The first string split yields is the whole match, as extract gives it. */
  lemma SplitFirstIsExtract(exec: Matcher, subject: string, offset: nat, options: bv32)
    requires Sound(exec) && offset <= |subject|
    requires |SplitStrings(exec, subject, offset, options)| > 0
    ensures SplitStrings(exec, subject, offset, options)[0] == Extract(exec, subject, offset, "", options).1
  {
    var e := Exec(exec, subject, offset, options);
    assert e.rc > 0 && 0 <= offset <= e.ovec[0] <= e.ovec[1] <= |subject|;
    assert GroupFits(e.ovec, 0, |subject|);
    assert SplitStrings(exec, subject, offset, options)[0] == GroupText(subject, e, 0);
  }

  /** The Match entries all lie in the subject, or are unset. */
  predicate InSubject(subject: string, matches: seq<Match>)
  {
    forall i :: 0 <= i < |matches| ==> matches[i].offset == NPOS || matches[i].offset + matches[i].length <= |subject|
  }

  /** The loop of split: one string per Match, "" for an unset one. */
  method CapturedStrings(subject: string, matches: seq<Match>) returns (strings: seq<string>)
    requires InSubject(subject, matches)
    ensures |strings| == |matches|
    ensures forall i :: 0 <= i < |matches| ==> strings[i] == Captured(subject, matches[i])
  {
    strings := [];
    var i := 0;
    while i < |matches|
      invariant 0 <= i <= |matches|
      invariant |strings| == i
      invariant forall k :: 0 <= k < i ==> strings[k] == Captured(subject, matches[k])
    {
      var m := matches[i];
      if m.offset != NPOS {
        strings := strings + [subject[m.offset..m.offset + m.length]];
      } else {
        strings := strings + [""];
      }
      i := i + 1;
    }
  }

  /** split(subject, offset, strings, options). */
  method Split(exec: Matcher, subject: string, offset: nat, options: bv32)
    returns (res: Result<int, RegexError>, strings: seq<string>)
    requires Sound(exec) && offset <= |subject|
    ensures res.Ok? <==> MatchOne(exec, subject, offset, options).Ok?
    ensures res.Ok? ==> res.value == MatchOne(exec, subject, offset, options).value.rc
    ensures res.Err? ==> res.error == MatchOne(exec, subject, offset, options).error
    ensures strings == if res.Ok? then SplitStrings(exec, subject, offset, options) else []
  {
    var matches;
    res, matches := MatchAll(exec, subject, offset, options);
    if res.Err? {
      return res, [];
    }
    ghost var expected := SplitStrings(exec, subject, offset, options);
    forall i | 0 <= i < |matches|
      ensures matches[i].offset == NPOS || matches[i].offset + matches[i].length <= |subject|
      ensures expected[i] == Captured(subject, matches[i])
    {
      SplitStringsAt(exec, subject, offset, options, i);
    }
    strings := CapturedStrings(subject, matches);
  }

  /** split(subject, strings, options): the offset-0 overload. */
  method SplitFromStart(exec: Matcher, subject: string, options: bv32)
    returns (res: Result<int, RegexError>, strings: seq<string>)
    requires Sound(exec)
    ensures res.Ok? <==> MatchOne(exec, subject, 0, options).Ok?
    ensures res.Ok? ==> res.value == MatchOne(exec, subject, 0, options).value.rc
    ensures res.Err? ==> res.error == MatchOne(exec, subject, 0, options).error
    ensures strings == if res.Ok? then SplitStrings(exec, subject, 0, options) else []
  {
    res, strings := Split(exec, subject, 0, options);
  }

  // ---------------------------------------------------------------------
  // Substitution
  // ---------------------------------------------------------------------

  function Prepend(s: string, r: Result<string, RegexError>): (p: Result<string, RegexError>)
    ensures p.Ok? <==> r.Ok?
    ensures p.Ok? ==> p.value == s + r.value
    ensures p.Err? ==> p == r
  {
    match r
    case Ok(v) => Ok(s + v)
    case Err(err) => Err(err)
  }

  lemma PrependTwice(a: string, b: string, r: Result<string, RegexError>)
    ensures Prepend(a, Prepend(b, r)) == Prepend(a + b, r)
  {
    if r.Ok? {
      assert a + (b + r.value) == (a + b) + r.value;
    }
  }

  /** The text substOne puts in place of the match: the replacement with
      "$d" replaced by group d when d < rc and dropped when d >= rc, "$x" for
      a non-digit x kept, a trailing '$' kept, and everything copied as it is
      when `literal` (RE_NO_VARS) holds. A "$d" naming a group that did not
      take part makes std::string::append throw std::out_of_range, the only
      way the expansion can fail. */
  function Expand(rep: string, subject: string, e: PcreResult, literal: bool): (r: Result<string, RegexError>)
    requires GroupsFit(e, |subject|)
    ensures r.Ok? || r == Err(OutOfRange)
    decreases |rep|
  {
    if rep == [] then Ok([])
    else if rep[0] == '$' && !literal && |rep| >= 2 then
      var d := rep[1];
      if '0' <= d <= '9' then
        var c := d as int - '0' as int;
        if c < e.rc then
          assert GroupFits(e.ovec, c, |subject|);
          if e.ovec[2 * c] < 0 then Err(OutOfRange)
          else Prepend(subject[e.ovec[2 * c]..e.ovec[2 * c + 1]], Expand(rep[2..], subject, e, literal))
        else Expand(rep[2..], subject, e, literal)
      else Prepend(['$', d], Expand(rep[2..], subject, e, literal))
    else Prepend([rep[0]], Expand(rep[1..], subject, e, literal))
  }

  /** The inner loop of substOne: appends the expansion of the replacement
      to `result`. */
  method AppendExpansion(result: string, rep: string, subject: string, e: PcreResult, literal: bool)
    returns (res: Result<string, RegexError>)
    requires GroupsFit(e, |subject|)
    ensures res == Prepend(result, Expand(rep, subject, e, literal))
  {
    var out := result;
    var i := 0;
    while i < |rep|
      invariant 0 <= i <= |rep|
      invariant Prepend(out, Expand(rep[i..], subject, e, literal)) == Prepend(result, Expand(rep, subject, e, literal))
    {
      ghost var rest := rep[i..];
      if rep[i] == '$' && !literal {
        if i + 1 < |rep| {
          var d := rep[i + 1];
          assert rest[2..] == rep[i + 2..];
          if '0' <= d <= '9' {
            var c := d as int - '0' as int;
            if c < e.rc {
              var o := e.ovec[2 * c];
              var l := e.ovec[2 * c + 1] - o;
              assert GroupFits(e.ovec, c, |subject|);
              if o < 0 {
                assert Expand(rest, subject, e, literal) == Err(OutOfRange);
                return Err(OutOfRange);
              }
              assert Expand(rest, subject, e, literal) == Prepend(subject[o..o + l], Expand(rep[i + 2..], subject, e, literal));
              PrependTwice(out, subject[o..o + l], Expand(rep[i + 2..], subject, e, literal));
              out := out + subject[o..o + l];
            } else {
              assert Expand(rest, subject, e, literal) == Expand(rep[i + 2..], subject, e, literal);
            }
          } else {
            assert Expand(rest, subject, e, literal) == Prepend(['$', d], Expand(rep[i + 2..], subject, e, literal));
            PrependTwice(out, ['$', d], Expand(rep[i + 2..], subject, e, literal));
            out := out + ['$', d];
          }
          i := i + 2;
        } else {
          assert rest[1..] == rep[i + 1..];
          assert Expand(rest, subject, e, literal) == Prepend(['$'], Expand(rep[i + 1..], subject, e, literal));
          PrependTwice(out, ['$'], Expand(rep[i + 1..], subject, e, literal));
          out := out + ['$'];
          i := i + 1;
        }
      } else {
        assert rest[1..] == rep[i + 1..];
        assert Expand(rest, subject, e, literal) == Prepend([rep[i]], Expand(rep[i + 1..], subject, e, literal));
        PrependTwice(out, [rep[i]], Expand(rep[i + 1..], subject, e, literal));
        out := out + [rep[i]];
        i := i + 1;
      }
    }
    assert rep[i..] == [];
    assert out + [] == out;
    res := Ok(out);
  }

  /** The outcome of one substitution: the new subject and the position
      after the inserted replacement, or None for npos. */
  datatype Substitution = Substitution(subject: string, next: Option<nat>)

  /** What substOne does. It returns npos without change when the offset is
      at or past the end, when nothing matches, and when the match starts at
      the very end (its copy loop stops before it reaches the match). Else the
      match is replaced by the expansion of the replacement; an empty match
      before the end makes the source's loop splice forever. */
  function SubstOneSpec(exec: Matcher, subject: string, offset: nat, rep: string, options: bv32): (res: Result<Substitution, RegexError>)
    requires Sound(exec)
    ensures offset >= |subject| ==> res == Ok(Substitution(subject, None))
    ensures res.Ok? && res.value.next.None? ==> res.value.subject == subject
    ensures res.Ok? && res.value.next.Some? ==>
      && offset < |subject|
      && res.value.next.value <= |res.value.subject|
      && |res.value.subject| - res.value.next.value < |subject| - offset
    ensures var e := if offset <= |subject| then Exec(exec, subject, offset, options) else PcreResult(0, []);
      res.Ok? && res.value.next.Some? ==>
        && e.rc > 0
        && e.ovec[0] <= res.value.next.value <= |res.value.subject|
        && res.value.subject[..e.ovec[0]] == subject[..e.ovec[0]]
        && res.value.subject[res.value.next.value..] == subject[e.ovec[1]..]
  {
    if offset >= |subject| then Ok(Substitution(subject, None))
    else
      var e := Exec(exec, subject, offset, options);
      var err := ExecError(e.rc);
      if err.Some? then Err(err.value)
      else if e.rc == PCRE_ERROR_NOMATCH then Ok(Substitution(subject, None))
      else if e.ovec[0] == |subject| then Ok(Substitution(subject, None))
      else
        var x :- Expand(rep, subject, e, options & RE_NO_VARS != 0);
        if e.ovec[0] == e.ovec[1] then Err(Diverges)
        else
          var s := subject[..e.ovec[0]] + x;
          assert (s + subject[e.ovec[1]..])[..e.ovec[0]] == subject[..e.ovec[0]];
          assert (s + subject[e.ovec[1]..])[|s|..] == subject[e.ovec[1]..];
          Ok(Substitution(s + subject[e.ovec[1]..], Some(|s|)))
  }

  /** substOne: the copy-and-splice loop over the subject. */
  method SubstOne(exec: Matcher, subject: string, offset: nat, rep: string, options: bv32)
    returns (res: Result<Substitution, RegexError>)
    requires Sound(exec)
    ensures res == SubstOneSpec(exec, subject, offset, rep, options)
  {
    if offset >= |subject| {
      return Ok(Substitution(subject, None));
    }
    var e := Exec(exec, subject, offset, options);
    var err := ExecError(e.rc);
    if err.Some? {
      return Err(err.value);
    }
    if e.rc == PCRE_ERROR_NOMATCH {
      return Ok(Substitution(subject, None));
    }
    var literal := options & RE_NO_VARS != 0;
    ghost var x := Expand(rep, subject, e, literal);
    var result := "";
    var len := |subject|;
    var pos := 0;
    var rp: Option<nat> := None;
    while pos < len
      invariant 0 <= pos <= len
      invariant pos <= e.ovec[0] ==> result == subject[..pos] && rp == None
      invariant pos > e.ovec[0] ==>
        && x.Ok? && e.ovec[0] < e.ovec[1] <= pos
        && result == subject[..e.ovec[0]] + x.value + subject[e.ovec[1]..pos]
        && rp == Some(e.ovec[0] + |x.value|)
      decreases len - pos
    {
      if e.ovec[0] == pos {
        var spliced := AppendExpansion(result, rep, subject, e, literal);
        if spliced.Err? {
          return Err(spliced.error);
        }
        if e.ovec[1] == pos {
          // pos would stay where it is and the splice would repeat forever.
          return Err(Diverges);
        }
        result := spliced.value;
        pos := e.ovec[1];
        rp := Some(|result|);
      } else {
        assert subject[..pos + 1] == subject[..pos] + [subject[pos]];
        result := result + [subject[pos]];
        pos := pos + 1;
      }
    }
    assert subject[..len] == subject;
    res := Ok(Substitution(result, rp));
  }

  /** The outcome of subst: the new subject and the number of replacements. */
  datatype Substituted = Substituted(subject: string, count: nat)

  function AddCount(r: Result<Substituted, RegexError>, n: nat): Result<Substituted, RegexError>
  {
    match r
    case Ok(s) => Ok(Substituted(s.subject, s.count + n))
    case Err(err) => Err(err)
  }

  /** The RE_GLOBAL loop of subst: substOne again from the position it
      returned, counting the calls that replaced something, until one returns
      npos. Each replacement strictly shortens what is left after the
      position, so there are at most |subject| - offset of them. */
  function SubstGlobal(exec: Matcher, subject: string, offset: nat, rep: string, options: bv32): (res: Result<Substituted, RegexError>)
    requires Sound(exec)
    ensures offset <= |subject| && res.Ok? ==> res.value.count <= |subject| - offset
    decreases if offset <= |subject| then |subject| - offset else 0
  {
    var s :- SubstOneSpec(exec, subject, offset, rep, options);
    match s.next
    case None => Ok(Substituted(s.subject, 0))
    case Some(p) => AddCount(SubstGlobal(exec, s.subject, p, rep, options), 1)
  }

  /** One round of the RE_GLOBAL loop, with the count so far added. */
  lemma SubstGlobalUnfold(exec: Matcher, subject: string, offset: nat, rep: string, options: bv32, n: nat)
    requires Sound(exec)
    ensures var r := SubstOneSpec(exec, subject, offset, rep, options);
      AddCount(SubstGlobal(exec, subject, offset, rep, options), n)
        == if r.Err? then Err(r.error)
           else if r.value.next.None? then Ok(Substituted(r.value.subject, n))
           else AddCount(SubstGlobal(exec, r.value.subject, r.value.next.value, rep, options), n + 1)
  {
    var r := SubstOneSpec(exec, subject, offset, rep, options);
    if r.Ok? && r.value.next.Some? {
      var t := SubstGlobal(exec, r.value.subject, r.value.next.value, rep, options);
      assert SubstGlobal(exec, subject, offset, rep, options) == AddCount(t, 1);
      assert AddCount(AddCount(t, 1), n) == AddCount(t, n + 1);
    }
  }

  /** subst(subject, offset, replacement, options). */
  function SubstSpec(exec: Matcher, subject: string, offset: nat, rep: string, options: bv32): (res: Result<Substituted, RegexError>)
    requires Sound(exec)
    ensures options & RE_GLOBAL == 0 && res.Ok? ==> res.value.count <= 1
  {
    if options & RE_GLOBAL != 0 then SubstGlobal(exec, subject, offset, rep, options)
    else
      var s :- SubstOneSpec(exec, subject, offset, rep, options);
      Ok(Substituted(s.subject, if s.next.Some? then 1 else 0))
  }

  /** subst: the counting loop for RE_GLOBAL, one substOne otherwise. */
  method Subst(exec: Matcher, subject: string, offset: nat, rep: string, options: bv32)
    returns (res: Result<Substituted, RegexError>)
    requires Sound(exec)
    ensures res == SubstSpec(exec, subject, offset, rep, options)
  {
    if options & RE_GLOBAL != 0 {
      var rc := 0;
      var r := SubstOne(exec, subject, offset, rep, options);
      if r.Err? {
        return Err(r.error);
      }
      var cur := r.value;
      while cur.next.Some?
        invariant SubstGlobal(exec, subject, offset, rep, options)
          == if cur.next.None? then Ok(Substituted(cur.subject, rc))
             else AddCount(SubstGlobal(exec, cur.subject, cur.next.value, rep, options), rc + 1)
        invariant cur.next.Some? ==> cur.next.value <= |cur.subject|
        decreases if cur.next.Some? && cur.next.value <= |cur.subject| then |cur.subject| - cur.next.value + 1 else 0
      {
        rc := rc + 1;
        SubstGlobalUnfold(exec, cur.subject, cur.next.value, rep, options, rc);
        r := SubstOne(exec, cur.subject, cur.next.value, rep, options);
        if r.Err? {
          return Err(r.error);
        }
        cur := r.value;
      }
      res := Ok(Substituted(cur.subject, rc));
    } else {
      var r := SubstOne(exec, subject, offset, rep, options);
      if r.Err? {
        return Err(r.error);
      }
      res := Ok(Substituted(r.value.subject, if r.value.next.Some? then 1 else 0));
    }
  }

  /** subst(subject, replacement, options): the offset-0 overload. */
  method SubstFromStart(exec: Matcher, subject: string, rep: string, options: bv32)
    returns (res: Result<Substituted, RegexError>)
    requires Sound(exec)
    ensures res == SubstSpec(exec, subject, 0, rep, options)
  {
    res := Subst(exec, subject, 0, rep, options);
  }

  /** With RE_NO_VARS the replacement is inserted as it is. */
  lemma {:induction false} ExpandLiteral(rep: string, subject: string, e: PcreResult)
    requires GroupsFit(e, |subject|)
    ensures Expand(rep, subject, e, true) == Ok(rep)
    decreases |rep|
  {
    if rep != [] {
      ExpandLiteral(rep[1..], subject, e);
      assert [rep[0]] + rep[1..] == rep;
    }
  }

  /** A replacement without '$' is inserted as it is, with or without RE_NO_VARS. */
  lemma {:induction false} ExpandPlain(rep: string, subject: string, e: PcreResult, literal: bool)
    requires GroupsFit(e, |subject|)
    requires forall i :: 0 <= i < |rep| ==> rep[i] != '$'
    ensures Expand(rep, subject, e, literal) == Ok(rep)
    decreases |rep|
  {
    if rep != [] {
      assert rep[0] != '$';
      ExpandPlain(rep[1..], subject, e, literal);
      assert [rep[0]] + rep[1..] == rep;
    }
  }

  /** The text holds no '$'. */
  predicate NoDollar(s: string)
    decreases |s|
  {
    s == [] || (s[0] != '$' && NoDollar(s[1..]))
  }

  /** Text without '$' in front of the rest is copied as it is. */
  lemma {:induction false} ExpandAfterPlain(pre: string, rest: string, subject: string, e: PcreResult, literal: bool)
    requires GroupsFit(e, |subject|)
    requires NoDollar(pre)
    ensures Expand(pre + rest, subject, e, literal) == Prepend(pre, Expand(rest, subject, e, literal))
    decreases |pre|
  {
    if pre == [] {
      assert pre + rest == rest;
      var x := Expand(rest, subject, e, literal);
      if x.Ok? {
        assert [] + x.value == x.value;
      }
    } else {
      assert pre[0] != '$';
      assert (pre + rest)[1..] == pre[1..] + rest;
      ExpandAfterPlain(pre[1..], rest, subject, e, literal);
      PrependTwice([pre[0]], pre[1..], Expand(rest, subject, e, literal));
      assert [pre[0]] + pre[1..] == pre;
    }
  }

  /** When the rest expands to some text followed by the expansion of a
      tail, '$'-free text in front of it is copied before that text. */
  lemma ExpandAfterPlainPrepend(pre: string, rest: string, text: string, tail: string, subject: string, e: PcreResult)
    requires GroupsFit(e, |subject|)
    requires NoDollar(pre)
    requires Expand(rest, subject, e, false) == Prepend(text, Expand(tail, subject, e, false))
    ensures Expand(pre + rest, subject, e, false) == Prepend(pre + text, Expand(tail, subject, e, false))
  {
    ExpandAfterPlain(pre, rest, subject, e, false);
    PrependTwice(pre, text, Expand(tail, subject, e, false));
  }

  /** "$d" with d < rc inserts group d when that group took part in the match. */
  lemma ExpandGroup(pre: string, d: char, post: string, subject: string, e: PcreResult)
    requires GroupsFit(e, |subject|)
    requires NoDollar(pre)
    requires '0' <= d <= '9' && d as int - '0' as int < e.rc
    requires e.ovec[2 * (d as int - '0' as int)] >= 0
    ensures GroupFits(e.ovec, d as int - '0' as int, |subject|)
    ensures var c := d as int - '0' as int;
      Expand(pre + (['$', d] + post), subject, e, false)
        == Prepend(pre + subject[e.ovec[2 * c]..e.ovec[2 * c + 1]], Expand(post, subject, e, false))
  {
    var c := d as int - '0' as int;
    assert GroupFits(e.ovec, c, |subject|);
    ExpandDigitGroup(d, post, subject, e);
    ExpandAfterPlainPrepend(pre, ['$', d] + post, subject[e.ovec[2 * c]..e.ovec[2 * c + 1]], post, subject, e);
  }

  /** "$d" naming a group that took part, in front of the rest. */
  lemma ExpandDigitGroup(d: char, post: string, subject: string, e: PcreResult)
    requires GroupsFit(e, |subject|)
    requires '0' <= d <= '9' && d as int - '0' as int < e.rc
    requires e.ovec[2 * (d as int - '0' as int)] >= 0
    ensures GroupFits(e.ovec, d as int - '0' as int, |subject|)
    ensures var c := d as int - '0' as int;
      Expand(['$', d] + post, subject, e, false)
        == Prepend(subject[e.ovec[2 * c]..e.ovec[2 * c + 1]], Expand(post, subject, e, false))
  {
    var rest: string := ['$', d] + post;
    assert rest[0] == '$' && rest[1] == d && rest[2..] == post;
    ExpandDigitAt(rest, subject, e);
  }

  /** "$d" with d < rc throws std::out_of_range when group d did not take
      part in the match. */
  lemma ExpandUnsetGroup(pre: string, d: char, post: string, subject: string, e: PcreResult)
    requires GroupsFit(e, |subject|)
    requires NoDollar(pre)
    requires '0' <= d <= '9' && d as int - '0' as int < e.rc
    requires e.ovec[2 * (d as int - '0' as int)] < 0
    ensures Expand(pre + (['$', d] + post), subject, e, false) == Err(OutOfRange)
  {
    var rest: string := ['$', d] + post;
    assert Expand(rest, subject, e, false) == Err(OutOfRange) by {
      assert rest[0] == '$' && rest[1] == d;
      ExpandDigitAt(rest, subject, e);
    }
    ExpandAfterPlain(pre, rest, subject, e, false);
  }

  /** Expand at a replacement that starts with '$' and a digit below rc. */
  lemma ExpandDigitAt(rest: string, subject: string, e: PcreResult)
    requires GroupsFit(e, |subject|)
    requires |rest| >= 2 && rest[0] == '$' && '0' <= rest[1] <= '9' && rest[1] as int - '0' as int < e.rc
    ensures GroupFits(e.ovec, rest[1] as int - '0' as int, |subject|)
    ensures var c := rest[1] as int - '0' as int;
      Expand(rest, subject, e, false)
        == if e.ovec[2 * c] < 0 then Err(OutOfRange)
           else Prepend(subject[e.ovec[2 * c]..e.ovec[2 * c + 1]], Expand(rest[2..], subject, e, false))
  {
    assert GroupFits(e.ovec, rest[1] as int - '0' as int, |subject|);
  }

  /** "$0" inserts the whole match, the text from ovec[0] to ovec[1]. */
  lemma ExpandWholeMatch(pre: string, post: string, subject: string, offset: nat, options: bv32, e: PcreResult)
    requires Fits(e, subject, offset, options) && e.rc > 0
    requires NoDollar(pre)
    ensures GroupsFit(e, |subject|)
    ensures Expand(pre + (['$', '0'] + post), subject, e, false)
      == Prepend(pre + subject[e.ovec[0]..e.ovec[1]], Expand(post, subject, e, false))
  {
    ExpandGroup(pre, '0', post, subject, e);
  }

  /** "$d" with d >= rc inserts nothing. */
  lemma ExpandMissingGroup(pre: string, d: char, post: string, subject: string, e: PcreResult)
    requires GroupsFit(e, |subject|)
    requires NoDollar(pre)
    requires '0' <= d <= '9' && e.rc <= d as int - '0' as int
    ensures Expand(pre + (['$', d] + post), subject, e, false)
      == Prepend(pre, Expand(post, subject, e, false))
  {
    var rest: string := ['$', d] + post;
    assert Expand(rest, subject, e, false) == Expand(post, subject, e, false) by {
      assert rest[0] == '$' && rest[1] == d && rest[2..] == post;
    }
    ExpandAfterPlain(pre, rest, subject, e, false);
  }

  /** "$x" for a character x that is not a digit is kept as it is. */
  lemma ExpandOtherDollar(pre: string, x: char, post: string, subject: string, e: PcreResult)
    requires GroupsFit(e, |subject|)
    requires NoDollar(pre)
    requires !('0' <= x <= '9')
    ensures Expand(pre + (['$', x] + post), subject, e, false)
      == Prepend(pre + ['$', x], Expand(post, subject, e, false))
  {
    var rest: string := ['$', x] + post;
    assert Expand(rest, subject, e, false) == Prepend(['$', x], Expand(post, subject, e, false)) by {
      assert rest[0] == '$' && rest[1] == x && rest[2..] == post;
    }
    ExpandAfterPlainPrepend(pre, rest, ['$', x], post, subject, e);
  }

  /** A '$' at the very end is kept as it is. */
  lemma ExpandTrailingDollar(pre: string, subject: string, e: PcreResult)
    requires GroupsFit(e, |subject|)
    requires NoDollar(pre)
    ensures Expand(pre + ['$'], subject, e, false) == Ok(pre + ['$'])
  {
    var t: string := ['$'];
    assert t[1..] == [];
    assert Expand([], subject, e, false) == Ok([]);
    assert Expand(t, subject, e, false) == Prepend([t[0]], Expand(t[1..], subject, e, false));
    assert t + [] == t;
    ExpandAfterPlain(pre, ['$'], subject, e, false);
  }

  lemma NotEmptyReachesPcre(options: bv32)
    requires options & RE_NOTEMPTY != 0
    ensures options & PCRE_MASK & RE_NOTEMPTY != 0
  {
    assert options & PCRE_MASK & RE_NOTEMPTY == options & RE_NOTEMPTY;
  }

  /** Under RE_NOTEMPTY every match has text, so substOne never splices an
      empty match in place. */
  lemma NotEmptyNeverDiverges(exec: Matcher, subject: string, offset: nat, rep: string, options: bv32)
    requires Sound(exec) && options & RE_NOTEMPTY != 0
    ensures SubstOneSpec(exec, subject, offset, rep, options) != Err(Diverges)
  {
    if offset < |subject| {
      NotEmptyReachesPcre(options);
      var e := Exec(exec, subject, offset, options);
      if e.rc > 0 {
        assert e.ovec[0] < e.ovec[1];
      }
    }
  }

  /** RE_GLOBAL and RE_NO_VARS never reach pcre_exec. */
  lemma FlagsOutsideMask(options: bv32)
    ensures (options | RE_GLOBAL) & PCRE_MASK == options & PCRE_MASK
    ensures (options | RE_NO_VARS) & PCRE_MASK == options & PCRE_MASK
    ensures (options | RE_GLOBAL) & RE_NO_VARS == options & RE_NO_VARS
  {
  }

  /** Adding RE_GLOBAL does not change one substOne step. */
  lemma GlobalSameStep(exec: Matcher, subject: string, offset: nat, rep: string, options: bv32)
    requires Sound(exec)
    ensures SubstOneSpec(exec, subject, offset, rep, options | RE_GLOBAL)
         == SubstOneSpec(exec, subject, offset, rep, options)
  {
    FlagsOutsideMask(options);
  }

  /** When the first substOne replaces nothing, subst gives the same outcome
      with and without RE_GLOBAL: the subject unchanged and 0. */
  lemma GlobalAgreesWhenNothingReplaced(exec: Matcher, subject: string, offset: nat, rep: string, options: bv32)
    requires Sound(exec) && options & RE_GLOBAL == 0
    requires SubstOneSpec(exec, subject, offset, rep, options).Ok?
    requires SubstOneSpec(exec, subject, offset, rep, options).value.next.None?
    ensures SubstSpec(exec, subject, offset, rep, options) == Ok(Substituted(subject, 0))
    ensures SubstSpec(exec, subject, offset, rep, options | RE_GLOBAL) == Ok(Substituted(subject, 0))
  {
    GlobalSameStep(exec, subject, offset, rep, options);
    assert (options | RE_GLOBAL) & RE_GLOBAL != 0;
  }

  /** A whole-subject match extracts the rest of the subject from the offset. */
  lemma FullMatchExtractsRest(exec: Matcher, subject: string, offset: nat, options: bv32)
    requires Sound(exec) && offset <= |subject| < NPOS
    requires MatchesWith(exec, subject, offset, options) == Ok(true)
    ensures Extract(exec, subject, offset, "", options) == (Ok(Exec(exec, subject, offset, options).rc), subject[offset..])
  {
    assert subject[offset..|subject|] == subject[offset..];
  }

  /** The static match: the options are split between the constructor and
      the match, the pattern is compiled, and the subject is matched from 0. */
  function StaticMatch(compile: (string, bv32) -> Result<Matcher, string>, subject: string, pattern: string, options: bv32): (res: Result<bool, RegexError>)
    requires forall p, o :: compile(p, o).Ok? ==> Sound(compile(p, o).value)
    ensures compile(pattern, options & CTOR_OPTIONS).Err? ==>
      res == Err(CompileError(compile(pattern, options & CTOR_OPTIONS).error))
    ensures compile(pattern, options & CTOR_OPTIONS).Ok? ==>
      res == MatchesWith(compile(pattern, options & CTOR_OPTIONS).value, subject, 0, options & MATCH_OPTIONS)
  {
    match compile(pattern, options & CTOR_OPTIONS)
    case Err(msg) => Err(CompileError(msg))
    case Ok(re) => MatchesWith(re, subject, 0, options & MATCH_OPTIONS)
  }

  /** The static match hands the options PCRE compiles with to the
      constructor only, those pcre_exec reads to the match only, and
      RE_ANCHORED and RE_NO_AUTO_CAPTURE to both; RE_GLOBAL and RE_NO_VARS
      to neither. */
  lemma StaticMatchOptionSplit(options: bv32)
    ensures options & CTOR_OPTIONS & (RE_NOTBOL | RE_NOTEOL | RE_NOTEMPTY | RE_NO_UTF8_CHECK) == 0
    ensures options & MATCH_OPTIONS & (RE_CASELESS | RE_MULTILINE | RE_DOTALL | RE_DOLLAR_ENDONLY | RE_EXTRA | RE_UNGREEDY | RE_UTF8) == 0
    ensures options & CTOR_OPTIONS & (RE_ANCHORED | RE_NO_AUTO_CAPTURE) == options & MATCH_OPTIONS & (RE_ANCHORED | RE_NO_AUTO_CAPTURE)
    ensures options & (CTOR_OPTIONS | MATCH_OPTIONS) & (RE_GLOBAL | RE_NO_VARS) == 0
    ensures options & MATCH_OPTIONS & PCRE_MASK == options & MATCH_OPTIONS
  {
  }
}
