/** The scanner that finds bind placeholders in SQL text. It passes over line and block comments, quoted strings, quoted
    identifiers and alternative-quoted literals, and numbers the names it finds with 16-bit indexes. */
module Placeholders {
  import opened Results

  /** Whether a character counts as a Unicode letter or digit. */
  type Classifier = char -> bool

  const MAXIMUM_INDEX := 0xFFFF

  predicate InName(letter: Classifier, c: char) {
    letter(c) || c == '_' || c == '$' || c == '#' || c == '@'
  }

  // ---------------------------------------------------------------------------------------------
  // Constructs to pass over
  // ---------------------------------------------------------------------------------------------

  function LineEnd(s: string, j: nat): (e: nat)
    requires j <= |s|
    ensures j <= e <= |s|
    decreases |s| - j
  {
    if j < |s| && s[j] != '\n' then LineEnd(s, j + 1) else j
  }

  function BlockEnd(s: string, j: nat): (e: nat)
    requires j <= |s|
    ensures j <= e <= |s|
    decreases |s| - j
  {
    if j + 1 < |s| then if s[j] == '*' && s[j + 1] == '/' then j + 2 else BlockEnd(s, j + 1)
    else |s|
  }

  /** The end of a quoted text, in which a doubled quote stands for one. */
  function QuoteEnd(s: string, j: nat, quote: char): (e: nat)
    requires j <= |s|
    ensures j <= e <= |s|
    decreases |s| - j
  {
    if j == |s| then |s|
    else if s[j] != quote then QuoteEnd(s, j + 1, quote)
    else if j + 1 < |s| && s[j + 1] == quote then QuoteEnd(s, j + 2, quote)
    else j + 1
  }

  function LiteralEnd(s: string, j: nat, closing: char): (e: nat)
    requires j <= |s|
    ensures j <= e <= |s|
    decreases |s| - j
  {
    if j + 1 < |s| then if s[j] == closing && s[j + 1] == '\'' then j + 2 else LiteralEnd(s, j + 1, closing)
    else |s|
  }

  function Closing(opening: char): char {
    match opening case '[' => ']' case '{' => '}' case '<' => '>' case '(' => ')' case c => c
  }

  predicate AlternativeQuote(s: string, i: nat) {
    i + 2 < |s| && (s[i] == 'q' || s[i] == 'Q') && s[i + 1] == '\''
  }

  /** Where the construct that starts at `i` ends, if one starts there. */
  function Skip(s: string, i: nat): (r: Option<nat>)
    requires i < |s|
    ensures r.Some? ==> i < r.value <= |s|
  {
    if s[i] == '-' && i + 1 < |s| && s[i + 1] == '-' then Some(LineEnd(s, i + 2))
    else if s[i] == '/' && i + 1 < |s| && s[i + 1] == '*' then Some(BlockEnd(s, i + 2))
    else if AlternativeQuote(s, i) then
      if s[i + 2] == ' ' || s[i + 2] == '\t' || s[i + 2] == '\r' then None
      else Some(LiteralEnd(s, i + 3, Closing(s[i + 2])))
    else if s[i] == '\'' || s[i] == '"' then Some(QuoteEnd(s, i + 1, s[i]))
    else None
  }

  /** The scanning routine, with its index loops. It stays in bounds for every position it is given. */
  method SkipCommentOrString(s: string, i: int) returns (end: int, skipped: bool)
    ensures skipped <==> 0 <= i < |s| && Skip(s, i).Some?
    ensures end == if skipped then Skip(s, i).value else i
  {
    var n := |s|;
    if i < 0 || n <= i {
      return i, false;
    }
    if s[i] == '-' && i + 1 < n && s[i + 1] == '-' {
      var j := i + 2;
      while j < n && s[j] != '\n'
        invariant i + 2 <= j <= n && LineEnd(s, j) == LineEnd(s, i + 2)
      {
        j := j + 1;
      }
      return j, true;
    }
    if s[i] == '/' && i + 1 < n && s[i + 1] == '*' {
      var j := i + 2;
      while j < n - 1
        invariant i + 2 <= j <= n && BlockEnd(s, j) == BlockEnd(s, i + 2)
      {
        if s[j] == '*' && s[j + 1] == '/' {
          return j + 2, true;
        }
        j := j + 1;
      }
      return n, true;
    }
    if (s[i] == 'q' || s[i] == 'Q') && i + 2 < n && s[i + 1] == '\'' {
      var closing := s[i + 2];
      if closing == ' ' || closing == '\t' || closing == '\r' {
        return i, false;
      }
      closing := Closing(closing);
      var j := i + 3;
      while j + 1 < n
        invariant i + 3 <= j <= n && LiteralEnd(s, j, closing) == LiteralEnd(s, i + 3, closing)
      {
        if s[j] == closing && s[j + 1] == '\'' {
          return j + 2, true;
        }
        j := j + 1;
      }
      return n, true;
    }
    if s[i] == '\'' || s[i] == '"' {
      var j := i + 1;
      while j < n
        invariant i + 1 <= j <= n && QuoteEnd(s, j, s[i]) == QuoteEnd(s, i + 1, s[i])
      {
        if s[j] == s[i] {
          if j + 1 < n && s[j + 1] == s[i] {
            j := j + 2;
          } else {
            return j + 1, true;
          }
        } else {
          j := j + 1;
        }
      }
      return n, true;
    }
    return i, false;
  }

  // ---------------------------------------------------------------------------------------------
  // What the scanner finds
  // ---------------------------------------------------------------------------------------------

  function NameEnd(letter: Classifier, s: string, j: nat): (e: nat)
    requires j <= |s|
    ensures j <= e <= |s|
    ensures forall k :: j <= k < e ==> InName(letter, s[k])
    ensures e < |s| ==> !InName(letter, s[e])
    decreases |s| - j
  {
    if j < |s| && InName(letter, s[j]) then NameEnd(letter, s, j + 1) else j
  }

  datatype Token = Name(name: string) | DanglingColon

  /** The placeholders from position `i` on. A colon that is followed by neither `=` nor a name still counts as one,
      with an empty name. */
  function Tokens(letter: Classifier, s: string, i: nat): seq<Token>
    requires i <= |s|
    decreases |s| - i
  {
    if i == |s| then []
    else if Skip(s, i).Some? then Tokens(letter, s, Skip(s, i).value)
    else if s[i] != ':' then Tokens(letter, s, i + 1)
    else if i + 1 == |s| then [DanglingColon]
    else if s[i + 1] == '=' then Tokens(letter, s, i + 1)
    else
      var e := NameEnd(letter, s, i + 1);
      [Name(s[i + 1..e])] + Tokens(letter, s, e)
  }

  datatype BindDetails = BindDetails(
    bindNames: seq<string>,
    bindMap: map<string, seq<nat>>,
    uniqueNames: map<string, nat>)

  datatype ParseError = DanglingColonError | TooManyNames | TooManyPlaceholders

  /** The details so far and the next occurrence index, a 16-bit counter that wraps around. */
  datatype Progress = Progress(details: BindDetails, next: nat)

  const NothingYet := Progress(BindDetails([], map[], map[]), 0)

  function Record(p: Progress, name: string): Result<Progress, ParseError> {
    var d := p.details;
    var names := d.bindNames + [name];
    if name !in d.bindMap && MAXIMUM_INDEX < |d.uniqueNames| then Err(TooManyNames)
    else if MAXIMUM_INDEX + 1 < |names| then Err(TooManyPlaceholders)
    else
      var unique := if name in d.bindMap then d.uniqueNames
                    else d.uniqueNames[name := |d.uniqueNames| % (MAXIMUM_INDEX + 1)];
      var occurrences := (if name in d.bindMap then d.bindMap[name] else []) + [p.next];
      Ok(Progress(BindDetails(names, d.bindMap[name := occurrences], unique), (p.next + 1) % (MAXIMUM_INDEX + 1)))
  }

  function RecordAll(p: Progress, tokens: seq<Token>): Result<Progress, ParseError>
    decreases |tokens|
  {
    if tokens == [] then Ok(p)
    else if tokens[0].DanglingColon? then Err(DanglingColonError)
    else
      match Record(p, tokens[0].name)
      case Err(e) => Err(e)
      case Ok(next) => RecordAll(next, tokens[1..])
  }

  function Parse(letter: Classifier, s: string): Result<BindDetails, ParseError> {
    match RecordAll(NothingYet, Tokens(letter, s, 0))
    case Ok(p) => Ok(p.details)
    case Err(e) => Err(e)
  }

  method ParsePlaceholders(letter: Classifier, s: string) returns (r: Result<BindDetails, ParseError>)
    ensures r == Parse(letter, s)
  {
    var p := NothingYet;
    var i := 0;
    while i < |s|
      invariant 0 <= i <= |s|
      invariant RecordAll(p, Tokens(letter, s, i)) == RecordAll(NothingYet, Tokens(letter, s, 0))
      decreases |s| - i
    {
      var end, skipped := SkipCommentOrString(s, i);
      if skipped {
        i := end;
      } else if s[i] != ':' {
        i := i + 1;
      } else if |s| <= i + 1 {
        return Err(DanglingColonError);
      } else if s[i + 1] == '=' {
        i := i + 1;
      } else {
        var j := i + 1;
        while j < |s| && InName(letter, s[j])
          invariant i + 1 <= j <= |s| && NameEnd(letter, s, j) == NameEnd(letter, s, i + 1)
        {
          j := j + 1;
        }
        var recorded := Record(p, s[i + 1..j]);
        assert Tokens(letter, s, i)[1..] == Tokens(letter, s, j);
        if recorded.Err? {
          return Err(recorded.error);
        }
        p := recorded.value;
        i := j;
      }
    }
    r := Ok(p.details);
  }

  // ---------------------------------------------------------------------------------------------
  // Blanking
  // ---------------------------------------------------------------------------------------------

  function Spaces(n: nat): (r: string)
    ensures |r| == n && forall i :: 0 <= i < n ==> r[i] == ' '
  {
    seq(n, _ => ' ')
  }

  /** The text from position `i` on with every construct that the scanner passes over replaced by spaces. */
  function Blank(letter: Classifier, s: string, i: nat): (r: string)
    requires i <= |s|
    ensures |r| == |s| - i
    decreases |s| - i
  {
    if i == |s| then []
    else if Skip(s, i).Some? then Spaces(Skip(s, i).value - i) + Blank(letter, s, Skip(s, i).value)
    else if s[i] != ':' || i + 1 == |s| || s[i + 1] == '=' then [s[i]] + Blank(letter, s, i + 1)
    else
      var e := NameEnd(letter, s, i + 1);
      s[i..e] + Blank(letter, s, e)
  }

  lemma BlankHead(letter: Classifier, s: string, i: nat)
    requires i < |s|
    ensures Blank(letter, s, i)[0] == if Skip(s, i).Some? then ' ' else s[i]
  {
  }

  lemma {:induction false} SpacesYieldNothing(letter: Classifier, b: string, i: nat, e: nat)
    requires i <= e <= |b| && forall k :: i <= k < e ==> b[k] == ' '
    ensures Tokens(letter, b, i) == Tokens(letter, b, e)
    decreases e - i
  {
    if i < e {
      SpacesYieldNothing(letter, b, i + 1, e);
    }
  }

  /** A plain character stays plain in the blanked text: nothing can start at it that did not start there before. */
  lemma PlainStaysPlain(letter: Classifier, s: string, b: string, i: nat)
    requires |b| == |s| && i < |s| && Skip(s, i).None? && b[i] == s[i]
    requires i + 1 < |s| ==> b[i + 1..] == Blank(letter, s, i + 1)
    ensures Skip(b, i).None?
  {
    if i + 1 < |s| {
      BlankHead(letter, s, i + 1);
      assert b[i + 1] == b[i + 1..][0];
    }
  }

  lemma {:induction false} NameEndIs(letter: Classifier, s: string, j: nat, e: nat)
    requires j <= e <= |s|
    requires forall k :: j <= k < e ==> InName(letter, s[k])
    requires e < |s| ==> !InName(letter, s[e])
    ensures NameEnd(letter, s, j) == e
    decreases e - j
  {
    if j < e {
      NameEndIs(letter, s, j + 1, e);
    }
  }

  lemma SuffixAfter(b: string, i: nat, front: string, back: string)
    requires i <= |b| && b[i..] == front + back
    ensures i + |front| <= |b| && b[i + |front|..] == back
    ensures forall k :: i <= k < i + |front| ==> b[k] == front[k - i]
  {
    assert b[i..][|front|..] == b[i + |front|..];
    forall k | i <= k < i + |front|
      ensures b[k] == front[k - i]
    {
      assert b[k] == b[i..][k - i];
    }
  }

  lemma {:induction false} BlankedTokens(letter: Classifier, s: string, b: string, i: nat)
    requires !letter(' ') && |b| == |s| && i <= |s| && b[i..] == Blank(letter, s, i)
    ensures Tokens(letter, b, i) == Tokens(letter, s, i)
    decreases |s| - i
  {
    if i == |s| {
    } else if Skip(s, i).Some? {
      BlankedConstruct(letter, s, b, i, Skip(s, i).value);
      BlankedTokens(letter, s, b, Skip(s, i).value);
    } else if s[i] != ':' || i + 1 == |s| || s[i + 1] == '=' {
      SuffixAfter(b, i, [s[i]], Blank(letter, s, i + 1));
      BlankedTokens(letter, s, b, i + 1);
      BlankedPlain(letter, s, b, i);
    } else {
      BlankedName(letter, s, b, i);
      BlankedTokens(letter, s, b, NameEnd(letter, s, i + 1));
      SameToken(letter, s, b, i);
    }
  }

  /** A construct yields no tokens, before and after blanking. */
  lemma {:induction false} BlankedConstruct(letter: Classifier, s: string, b: string, i: nat, e: nat)
    requires |b| == |s| && i < |s| && Skip(s, i) == Some(e) && b[i..] == Blank(letter, s, i)
    ensures b[e..] == Blank(letter, s, e)
    ensures Tokens(letter, b, i) == Tokens(letter, b, e) && Tokens(letter, s, i) == Tokens(letter, s, e)
  {
    SuffixAfter(b, i, Spaces(e - i), Blank(letter, s, e));
    SpacesYieldNothing(letter, b, i, e);
  }

  /** A character outside every construct yields the same tokens in the blanked text. */
  lemma BlankedPlain(letter: Classifier, s: string, b: string, i: nat)
    requires |b| == |s| && i < |s| && Skip(s, i).None? && b[i] == s[i] && b[i + 1..] == Blank(letter, s, i + 1)
    requires s[i] != ':' || i + 1 == |s| || s[i + 1] == '='
    requires Tokens(letter, b, i + 1) == Tokens(letter, s, i + 1)
    ensures Tokens(letter, b, i) == Tokens(letter, s, i)
  {
    PlainStaysPlain(letter, s, b, i);
    if i + 1 < |s| {
      BlankHead(letter, s, i + 1);
      assert b[i + 1] == b[i + 1..][0];
    }
  }

  lemma SameToken(letter: Classifier, s: string, b: string, i: nat)
    requires |b| == |s| && i + 1 < |s| && Skip(s, i).None? && s[i] == ':' && s[i + 1] != '='
    requires Skip(b, i).None? && b[i] == ':' && b[i + 1] != '='
    requires var e := NameEnd(letter, s, i + 1);
             NameEnd(letter, b, i + 1) == e && b[i + 1..e] == s[i + 1..e] && Tokens(letter, b, e) == Tokens(letter, s, e)
    ensures Tokens(letter, b, i) == Tokens(letter, s, i)
  {
  }

  /** A placeholder keeps its name in the blanked text. */
  lemma BlankedName(letter: Classifier, s: string, b: string, i: nat)
    requires !letter(' ') && |b| == |s| && i + 1 < |s| && b[i..] == Blank(letter, s, i)
    requires Skip(s, i).None? && s[i] == ':' && s[i + 1] != '='
    ensures var e := NameEnd(letter, s, i + 1);
      && Skip(b, i).None? && b[i] == ':' && b[i + 1] != '='
      && NameEnd(letter, b, i + 1) == e && b[i + 1..e] == s[i + 1..e] && b[e..] == Blank(letter, s, e)
  {
    var e := NameEnd(letter, s, i + 1);
    SuffixAfter(b, i, s[i..e], Blank(letter, s, e));
    if e < |s| {
      BlankHead(letter, s, e);
      assert b[e] == b[e..][0];
    }
    assert forall k :: i <= k < e ==> b[k] == s[k];
    assert b[i + 1..e] == s[i + 1..e];
    assert e == i + 1 ==> b[e] == s[e] || b[e] == ' ';
    NameEndIs(letter, b, i + 1, e);
  }

  /** Blanking every comment, string, quoted identifier and alternative-quoted literal never changes the outcome: the
      same names at the same indexes, or the same error. */
  lemma BlankingKeepsPlaceholders(letter: Classifier, s: string)
    requires !letter(' ')
    ensures Parse(letter, Blank(letter, s, 0)) == Parse(letter, s)
  {
    var b := Blank(letter, s, 0);
    assert b[0..] == b;
    BlankedTokens(letter, s, b, 0);
  }

  // ---------------------------------------------------------------------------------------------
  // What the ends mean
  // ---------------------------------------------------------------------------------------------

  predicate PairAt(s: string, k: int, a: char, b: char) { 0 <= k && k + 1 < |s| && s[k] == a && s[k + 1] == b }

  /** A line comment ends before the first newline. */
  lemma {:induction false} LineEndIsFirstNewline(s: string, j: nat)
    requires j <= |s|
    ensures forall k :: j <= k < LineEnd(s, j) ==> s[k] != '\n'
    ensures LineEnd(s, j) < |s| ==> s[LineEnd(s, j)] == '\n'
    decreases |s| - j
  {
    if j < |s| && s[j] != '\n' {
      LineEndIsFirstNewline(s, j + 1);
    }
  }

  /** An alternative-quoted literal ends behind its first closing delimiter with a quote, or with the text. */
  lemma {:induction false} LiteralEndIsFirstClosing(s: string, j: nat, closing: char)
    requires j <= |s|
    ensures var e := LiteralEnd(s, j, closing);
      if exists k :: j <= k && PairAt(s, k, closing, '\'')
      then j + 2 <= e && PairAt(s, e - 2, closing, '\'') && forall k :: j <= k < e - 2 ==> !PairAt(s, k, closing, '\'')
      else e == |s|
    decreases |s| - j
  {
    if j + 1 < |s| && !PairAt(s, j, closing, '\'') {
      LiteralEndIsFirstClosing(s, j + 1, closing);
    }
  }

  lemma {:induction false} BlockEndIsFirstClosing(s: string, j: nat)
    requires j <= |s|
    ensures var e := BlockEnd(s, j);
      if exists k :: j <= k && PairAt(s, k, '*', '/')
      then j + 2 <= e && PairAt(s, e - 2, '*', '/') && forall k :: j <= k < e - 2 ==> !PairAt(s, k, '*', '/')
      else e == |s|
    decreases |s| - j
  {
    if j + 1 < |s| && !PairAt(s, j, '*', '/') {
      BlockEndIsFirstClosing(s, j + 1);
    }
  }

  /** Text with every quote doubled. */
  function Escaped(text: string, quote: char): string {
    if text == [] then []
    else (if text[0] == quote then [quote, quote] else [text[0]]) + Escaped(text[1..], quote)
  }

  /** A quoted text ends exactly behind its closing quote, whatever it contains: escaping any text and closing it takes
      the scanner to the end of it, provided no further quote follows at once. */
  lemma {:induction false} QuoteEndOfEscaped(s: string, j: nat, text: string, quote: char, rest: string)
    requires j <= |s| && s[j..] == Escaped(text, quote) + [quote] + rest
    requires rest != [] ==> rest[0] != quote
    ensures QuoteEnd(s, j, quote) == j + |Escaped(text, quote)| + 1
    decreases |text|
  {
    if text == [] {
      assert s[j] == s[j..][0];
      if j + 1 < |s| {
        assert s[j + 1] == s[j..][1];
      }
    } else {
      var head := if text[0] == quote then [quote, quote] else [text[0]];
      var tail := Escaped(text[1..], quote) + [quote] + rest;
      assert s[j..] == head + tail;
      SuffixAfter(s, j, head, tail);
      QuoteEndOfEscaped(s, j + |head|, text[1..], quote, rest);
    }
  }

  // ---------------------------------------------------------------------------------------------
  // What the details mean
  // ---------------------------------------------------------------------------------------------

  /** The names in order of first appearance. */
  function Distinct(names: seq<string>): seq<string> {
    if names == [] then []
    else
      var before, last := names[..|names| - 1], names[|names| - 1];
      if last in before then Distinct(before) else Distinct(before) + [last]
  }

  /** Every listed name occurs, and when it first occurs every name listed before it has occurred already. */
  lemma {:induction false} DistinctIsFirstAppearance(names: seq<string>)
    ensures forall n :: n in names <==> n in Distinct(names)
    ensures forall a, b :: 0 <= a < b < |Distinct(names)| ==> Distinct(names)[a] != Distinct(names)[b]
    ensures forall a, b, p :: 0 <= a < b < |Distinct(names)| && 0 <= p < |names| && names[p] == Distinct(names)[b] ==>
                                Distinct(names)[a] in names[..p]
  {
    if names != [] {
      var before, last := names[..|names| - 1], names[|names| - 1];
      DistinctIsFirstAppearance(before);
      assert names == before + [last];
      forall a, b, p | 0 <= a < b < |Distinct(names)| && 0 <= p < |names| && names[p] == Distinct(names)[b]
        ensures Distinct(names)[a] in names[..p]
      {
        if p < |before| {
          assert names[..p] == before[..p];
        } else {
          assert names[..p] == before;
        }
      }
    }
  }

  ghost predicate Increasing(s: seq<nat>) { forall a, b :: 0 <= a < b < |s| ==> s[a] < s[b] }

  /** The occurrence lists partition the positions: position `i` is listed, in increasing order, under the name found
      there and under no other. */
  ghost predicate Partitions(names: seq<string>, occurrences: map<string, seq<nat>>) {
    && (forall n :: n in occurrences <==> n in names)
    && (forall n :: n in occurrences ==> Increasing(occurrences[n]))
    && (forall n, a :: n in occurrences && 0 <= a < |occurrences[n]| ==>
          occurrences[n][a] < |names| && names[occurrences[n][a]] == n)
    && (forall i :: 0 <= i < |names| ==> i in occurrences[names[i]])
  }

  /** The unique numbers enumerate the names in order of first appearance. */
  ghost predicate Enumerates(names: seq<string>, unique: map<string, nat>) {
    && |unique| == |Distinct(names)|
    && (forall n :: n in unique <==> n in names)
    && (forall k :: 0 <= k < |Distinct(names)| ==> Distinct(names)[k] in unique && unique[Distinct(names)[k]] == k)
  }

  /** Both hold, and no 16-bit index has wrapped around. */
  ghost predicate Consistent(d: BindDetails) {
    && |d.bindNames| <= MAXIMUM_INDEX + 1
    && Partitions(d.bindNames, d.bindMap)
    && Enumerates(d.bindNames, d.uniqueNames)
  }

  ghost predicate ConsistentProgress(p: Progress) {
    Consistent(p.details) && p.next == |p.details.bindNames| % (MAXIMUM_INDEX + 1)
  }

  lemma {:induction false} DistinctIsShorter(names: seq<string>)
    ensures |Distinct(names)| <= |names|
  {
    if names != [] {
      DistinctIsShorter(names[..|names| - 1]);
    }
  }

  lemma IncreasingExtends(at: seq<nat>, last: nat)
    requires Increasing(at) && forall a :: 0 <= a < |at| ==> at[a] < last
    ensures Increasing(at + [last])
  {
  }

  /** The occurrence lists with position `i` appended under `name`. */
  ghost function WithOccurrence(occurrences: map<string, seq<nat>>, name: string, i: nat): map<string, seq<nat>> {
    occurrences[name := (if name in occurrences then occurrences[name] else []) + [i]]
  }

  lemma OccurrencesStayIncreasing(names: seq<string>, occurrences: map<string, seq<nat>>, name: string, n: string)
    requires Partitions(names, occurrences) && n in WithOccurrence(occurrences, name, |names|)
    ensures Increasing(WithOccurrence(occurrences, name, |names|)[n])
  {
    if n == name && name in occurrences {
      IncreasingExtends(occurrences[name], |names|);
    }
  }

  lemma OccurrencesStaySound(names: seq<string>, occurrences: map<string, seq<nat>>, name: string, n: string, a: nat)
    requires Partitions(names, occurrences)
    requires n in WithOccurrence(occurrences, name, |names|) && a < |WithOccurrence(occurrences, name, |names|)[n]|
    ensures var i := WithOccurrence(occurrences, name, |names|)[n][a];
            i < |names| + 1 && (names + [name])[i] == n
  {
    if n in occurrences && a < |occurrences[n]| {
      assert WithOccurrence(occurrences, name, |names|)[n][a] == occurrences[n][a];
    }
  }

  lemma OccurrencesStayComplete(names: seq<string>, occurrences: map<string, seq<nat>>, name: string, i: nat)
    requires Partitions(names, occurrences) && i <= |names|
    ensures var n := (names + [name])[i];
            n in WithOccurrence(occurrences, name, |names|) && i in WithOccurrence(occurrences, name, |names|)[n]
  {
    var next := WithOccurrence(occurrences, name, |names|);
    if i == |names| {
      assert next[name][|next[name]| - 1] == i;
    } else {
      assert i in occurrences[names[i]];
      var a :| 0 <= a < |occurrences[names[i]]| && occurrences[names[i]][a] == i;
      assert next[names[i]][a] == i;
    }
  }

  lemma PartitionExtends(names: seq<string>, occurrences: map<string, seq<nat>>, name: string)
    requires Partitions(names, occurrences)
    ensures Partitions(names + [name], WithOccurrence(occurrences, name, |names|))
  {
    var more, next := names + [name], WithOccurrence(occurrences, name, |names|);
    forall n
      ensures n in next <==> n in more
    {
      assert n in names ==> n in more;
    }
    forall n | n in next
      ensures Increasing(next[n])
    {
      OccurrencesStayIncreasing(names, occurrences, name, n);
    }
    forall n, a | n in next && 0 <= a < |next[n]|
      ensures next[n][a] < |more| && more[next[n][a]] == n
    {
      OccurrencesStaySound(names, occurrences, name, n, a);
    }
    forall i | 0 <= i < |more|
      ensures i in next[more[i]]
    {
      OccurrencesStayComplete(names, occurrences, name, i);
    }
  }

  lemma EnumerationExtends(names: seq<string>, unique: map<string, nat>, name: string)
    requires Enumerates(names, unique)
    ensures Enumerates(names + [name], if name in names then unique else unique[name := |unique|])
  {
    assert (names + [name])[..|names|] == names;
    DistinctIsFirstAppearance(names);
    if name !in names {
      assert Distinct(names + [name]) == Distinct(names) + [name];
      assert |unique[name := |unique|]| == |unique| + 1;
    } else {
      assert Distinct(names + [name]) == Distinct(names);
    }
  }

  /** The details with one more placeholder. */
  ghost function WithName(d: BindDetails, name: string): BindDetails {
    BindDetails(
      d.bindNames + [name],
      WithOccurrence(d.bindMap, name, |d.bindNames|),
      if name in d.bindNames then d.uniqueNames else d.uniqueNames[name := |d.uniqueNames|])
  }

  lemma WithNameIsConsistent(d: BindDetails, name: string)
    requires Consistent(d) && |d.bindNames| <= MAXIMUM_INDEX
    ensures Consistent(WithName(d, name))
  {
    PartitionExtends(d.bindNames, d.bindMap, name);
    EnumerationExtends(d.bindNames, d.uniqueNames, name);
  }

  /** Below the limit a name is recorded at the true position and, if new, under the next free number. */
  lemma RecordIsExact(p: Progress, name: string)
    requires ConsistentProgress(p) && |p.details.bindNames| <= MAXIMUM_INDEX
    ensures var d := p.details;
      Record(p, name) == Ok(Progress(WithName(d, name), (|d.bindNames| + 1) % (MAXIMUM_INDEX + 1)))
  {
    IndexesFit(p);
    assert name in p.details.bindMap <==> name in p.details.bindNames;
  }

  /** Below the limit neither counter has wrapped around. */
  lemma IndexesFit(p: Progress)
    requires ConsistentProgress(p) && |p.details.bindNames| <= MAXIMUM_INDEX
    ensures p.next == |p.details.bindNames|
    ensures |p.details.uniqueNames| <= MAXIMUM_INDEX && |p.details.uniqueNames| % (MAXIMUM_INDEX + 1) == |p.details.uniqueNames|
  {
    DistinctIsShorter(p.details.bindNames);
    SmallRemainder(|p.details.bindNames|, MAXIMUM_INDEX + 1);
    SmallRemainder(|p.details.uniqueNames|, MAXIMUM_INDEX + 1);
  }

  lemma SmallRemainder(n: nat, m: nat)
    requires n < m
    ensures n % m == n
  {
  }

  lemma RecordSucceedsExactly(p: Progress, name: string)
    requires ConsistentProgress(p)
    ensures Record(p, name).Ok? <==> |p.details.bindNames| <= MAXIMUM_INDEX
  {
    if |p.details.bindNames| <= MAXIMUM_INDEX {
      RecordIsExact(p, name);
    }
  }

  lemma NextIsConsistent(p: Progress, name: string, next: Progress)
    requires ConsistentProgress(p) && |p.details.bindNames| <= MAXIMUM_INDEX
    requires next == Progress(WithName(p.details, name), (|p.details.bindNames| + 1) % (MAXIMUM_INDEX + 1))
    ensures ConsistentProgress(next) && next.details.bindNames == p.details.bindNames + [name]
  {
    WithNameIsConsistent(p.details, name);
  }

  lemma RecordKeepsConsistency(p: Progress, name: string)
    requires ConsistentProgress(p)
    ensures Record(p, name).Ok? <==> |p.details.bindNames| <= MAXIMUM_INDEX
    ensures Record(p, name).Ok? ==>
              ConsistentProgress(Record(p, name).value) && Record(p, name).value.details.bindNames == p.details.bindNames + [name]
  {
    RecordSucceedsExactly(p, name);
    if Record(p, name).Ok? {
      RecordIsExact(p, name);
      NextIsConsistent(p, name, Record(p, name).value);
    }
  }

  function NamesOf(tokens: seq<Token>): seq<string> {
    if tokens == [] then []
    else (if tokens[0].Name? then [tokens[0].name] else []) + NamesOf(tokens[1..])
  }

  lemma {:induction false} RecordAllSucceedsExactly(p: Progress, tokens: seq<Token>)
    requires ConsistentProgress(p)
    ensures RecordAll(p, tokens).Ok?
       <==> DanglingColon !in tokens && |p.details.bindNames| + |NamesOf(tokens)| <= MAXIMUM_INDEX + 1
    decreases |tokens|
  {
    if tokens != [] {
      assert tokens == [tokens[0]] + tokens[1..];
      if tokens[0].Name? {
        RecordKeepsConsistency(p, tokens[0].name);
        if Record(p, tokens[0].name).Ok? {
          RecordAllSucceedsExactly(Record(p, tokens[0].name).value, tokens[1..]);
        }
      }
    }
  }

  lemma {:induction false} RecordAllKeepsConsistency(p: Progress, tokens: seq<Token>)
    requires ConsistentProgress(p) && RecordAll(p, tokens).Ok?
    ensures ConsistentProgress(RecordAll(p, tokens).value)
    ensures RecordAll(p, tokens).value.details.bindNames == p.details.bindNames + NamesOf(tokens)
    decreases |tokens|
  {
    if tokens == [] {
      assert p.details.bindNames + NamesOf(tokens) == p.details.bindNames;
    } else {
      var name := tokens[0].name;
      RecordKeepsConsistency(p, name);
      RecordAllKeepsConsistency(Record(p, name).value, tokens[1..]);
      Regroup(p.details.bindNames, [name], NamesOf(tokens[1..]));
    }
  }

  lemma Regroup(a: seq<string>, b: seq<string>, c: seq<string>)
    ensures a + b + c == a + (b + c)
  {
  }

  /** Parsing succeeds exactly when there is no dangling colon and no more placeholders than 16-bit indexes, and then the
      details list the names in order of appearance and are consistent. */
  lemma ParseIsConsistent(letter: Classifier, s: string)
    ensures var tokens := Tokens(letter, s, 0);
      && (Parse(letter, s).Ok? <==> DanglingColon !in tokens && |NamesOf(tokens)| <= MAXIMUM_INDEX + 1)
      && (Parse(letter, s).Ok? ==> Consistent(Parse(letter, s).value) && Parse(letter, s).value.bindNames == NamesOf(tokens))
  {
    var tokens := Tokens(letter, s, 0);
    RecordAllSucceedsExactly(NothingYet, tokens);
    if RecordAll(NothingYet, tokens).Ok? {
      RecordAllKeepsConsistency(NothingYet, tokens);
    }
  }

  // ---------------------------------------------------------------------------------------------
  // Empty names
  // ---------------------------------------------------------------------------------------------

  /** Where the scanner goes from position `i`. */
  function Next(letter: Classifier, s: string, i: nat): (n: nat)
    requires i < |s|
    ensures i < n <= |s|
  {
    if Skip(s, i).Some? then Skip(s, i).value
    else if s[i] != ':' || i + 1 == |s| || s[i + 1] == '=' then i + 1
    else NameEnd(letter, s, i + 1)
  }

  /** Position `p` is passed on the way from `i`: it lies inside no construct that is passed over and inside no name. */
  predicate Visits(letter: Classifier, s: string, i: nat, p: nat)
    requires i <= |s|
    decreases |s| - i
  {
    i == p || (i < |s| && Visits(letter, s, Next(letter, s, i), p))
  }

  predicate NamelessColon(letter: Classifier, s: string, p: nat) {
    p + 1 < |s| && s[p] == ':' && s[p + 1] != '=' && !InName(letter, s[p + 1])
  }

  ghost predicate NamelessColonFrom(letter: Classifier, s: string, i: nat)
    requires i <= |s|
  {
    exists p :: Visits(letter, s, i, p) && NamelessColon(letter, s, p)
  }

  lemma NamelessColonNext(letter: Classifier, s: string, i: nat)
    requires i < |s|
    ensures NamelessColonFrom(letter, s, i)
       <==> NamelessColon(letter, s, i) || NamelessColonFrom(letter, s, Next(letter, s, i))
  {
    if NamelessColon(letter, s, i) {
      assert Visits(letter, s, i, i);
    }
    if NamelessColonFrom(letter, s, Next(letter, s, i)) {
      var p :| Visits(letter, s, Next(letter, s, i), p) && NamelessColon(letter, s, p);
      assert Visits(letter, s, i, p);
    }
  }

  lemma {:induction false} EmptyTokenExactlyWhen(letter: Classifier, s: string, i: nat)
    requires i <= |s|
    ensures Name("") in Tokens(letter, s, i) <==> NamelessColonFrom(letter, s, i)
    decreases |s| - i
  {
    if i < |s| {
      var e := Next(letter, s, i);
      NamelessColonNext(letter, s, i);
      EmptyTokenExactlyWhen(letter, s, e);
      if Skip(s, i).None? && s[i] == ':' {
        if i + 1 == |s| {
          assert Tokens(letter, s, i) == [DanglingColon];
        } else if s[i + 1] != '=' {
          assert Tokens(letter, s, i) == [Name(s[i + 1..e])] + Tokens(letter, s, e);
          assert s[i + 1..e] == "" <==> e == i + 1;
        }
      }
    }
  }

  lemma {:induction false} NamesAreTokens(tokens: seq<Token>, name: string)
    ensures name in NamesOf(tokens) <==> Name(name) in tokens
  {
    if tokens != [] {
      NamesAreTokens(tokens[1..], name);
      assert tokens == [tokens[0]] + tokens[1..];
    }
  }

  /** A successful parse records an empty name exactly when a colon outside every comment, string and name is followed by a
      character that is neither `=` nor part of a name. */
  lemma EmptyNameExactlyWhen(letter: Classifier, s: string)
    requires Parse(letter, s).Ok?
    ensures "" in Parse(letter, s).value.bindNames <==> NamelessColonFrom(letter, s, 0)
  {
    ParseIsConsistent(letter, s);
    NamesAreTokens(Tokens(letter, s, 0), "");
    EmptyTokenExactlyWhen(letter, s, 0);
  }

  lemma EmptyNameIsRecorded(letter: Classifier)
    requires !InName(letter, ';')
    ensures Parse(letter, ":;").Ok? && Parse(letter, ":;").value.bindNames == [""]
  {
    var s := ":;";
    assert Tokens(letter, s, 2) == [];
    assert Tokens(letter, s, 1) == Tokens(letter, s, 2);
    assert NameEnd(letter, s, 1) == 1 && s[1..1] == "";
    assert Tokens(letter, s, 0) == [Name("")];
    assert NamesOf([Name("")]) == [""] + NamesOf([]);
    ParseIsConsistent(letter, s);
  }

  // ---------------------------------------------------------------------------------------------
  // The names and the text
  // ---------------------------------------------------------------------------------------------

  /** A colon that starts a placeholder if the scanner passes it. */
  predicate StartsName(s: string, p: nat) { p + 1 < |s| && s[p] == ':' && s[p + 1] != '=' }

  /** `name` is the longest run of name characters behind position `p`. */
  ghost predicate IsNameAt(letter: Classifier, s: string, p: nat, name: string) {
    var e := p + 1 + |name|;
    && e <= |s| && s[p + 1..e] == name
    && (forall k :: p + 1 <= k < e ==> InName(letter, s[k]))
    && (e < |s| ==> !InName(letter, s[e]))
  }

  /** The colons that start placeholders, in the order in which the scanner passes them. */
  ghost function Starts(letter: Classifier, s: string, i: nat): seq<nat>
    requires i <= |s|
    decreases |s| - i
  {
    if i == |s| then []
    else (if StartsName(s, i) then [i] else []) + Starts(letter, s, Next(letter, s, i))
  }

  lemma {:induction false} StartsAreVisited(letter: Classifier, s: string, i: nat, p: nat)
    requires i <= |s|
    ensures p in Starts(letter, s, i) <==> Visits(letter, s, i, p) && StartsName(s, p)
    decreases |s| - i
  {
    if i < |s| {
      StartsAreVisited(letter, s, Next(letter, s, i), p);
      if p == i {
        VisitedIsAhead(letter, s, Next(letter, s, i), i);
      }
    }
  }

  lemma {:induction false} VisitedIsAhead(letter: Classifier, s: string, i: nat, p: nat)
    requires i <= |s|
    ensures Visits(letter, s, i, p) ==> i <= p <= |s|
    decreases |s| - i
  {
    if i < |s| {
      VisitedIsAhead(letter, s, Next(letter, s, i), p);
    }
  }

  lemma {:induction false} StartsIncrease(letter: Classifier, s: string, i: nat)
    requires i <= |s|
    ensures Increasing(Starts(letter, s, i)) && forall k :: 0 <= k < |Starts(letter, s, i)| ==> i <= Starts(letter, s, i)[k]
    decreases |s| - i
  {
    if i < |s| {
      StartsIncrease(letter, s, Next(letter, s, i));
    }
  }

  /** The names are those at the given places, one by one. */
  ghost predicate NamesAt(letter: Classifier, s: string, at: seq<nat>, names: seq<string>) {
    |at| == |names| && forall k :: 0 <= k < |at| ==> IsNameAt(letter, s, at[k], names[k])
  }

  lemma OneMoreNameAt(letter: Classifier, s: string, p: nat, name: string, at: seq<nat>, names: seq<string>)
    requires IsNameAt(letter, s, p, name) && NamesAt(letter, s, at, names)
    ensures NamesAt(letter, s, [p] + at, [name] + names)
  {
  }

  lemma {:induction false} NamesAreAtStarts(letter: Classifier, s: string, i: nat)
    requires i <= |s|
    ensures NamesAt(letter, s, Starts(letter, s, i), NamesOf(Tokens(letter, s, i)))
    decreases |s| - i
  {
    if i < |s| {
      var e := Next(letter, s, i);
      NamesAreAtStarts(letter, s, e);
      if StartsName(s, i) {
        NameAtStart(letter, s, i);
        OneMoreNameAt(letter, s, i, s[i + 1..e], Starts(letter, s, e), NamesOf(Tokens(letter, s, e)));
      } else if Skip(s, i).None? && s[i] == ':' && i + 1 == |s| {
        var none: seq<Token> := [];
        assert [DanglingColon][1..] == none && NamesOf([DanglingColon]) == [] + NamesOf(none);
      }
    }
  }

  lemma {:induction false} NameAtStart(letter: Classifier, s: string, i: nat)
    requires StartsName(s, i)
    ensures var e := Next(letter, s, i);
            && IsNameAt(letter, s, i, s[i + 1..e])
            && NamesOf(Tokens(letter, s, i)) == [s[i + 1..e]] + NamesOf(Tokens(letter, s, e))
  {
    var e := Next(letter, s, i);
    assert Tokens(letter, s, i) == [Name(s[i + 1..e])] + Tokens(letter, s, e);
    NamesOfFront(s[i + 1..e], Tokens(letter, s, e));
  }

  lemma NamesOfFront(name: string, tokens: seq<Token>)
    ensures NamesOf([Name(name)] + tokens) == [name] + NamesOf(tokens)
  {
    assert ([Name(name)] + tokens)[1..] == tokens;
  }

  /** A successful parse records, in text order, the name behind every colon that lies outside every comment, string and name
      and is not followed by `=`: the longest run of name characters there. It records nothing else. */
  lemma {:induction false} NamesAreInText(letter: Classifier, s: string)
    requires Parse(letter, s).Ok?
    ensures exists at: seq<nat> :: ArePlaceholders(letter, s, at) && NamesAt(letter, s, at, Parse(letter, s).value.bindNames)
  {
    ParseIsConsistent(letter, s);
    NamesAreAtStarts(letter, s, 0);
    StartsArePlaceholders(letter, s);
    var at := Starts(letter, s, 0);
    assert ArePlaceholders(letter, s, at) && NamesAt(letter, s, at, Parse(letter, s).value.bindNames);
  }

  /** `at` lists the colons that start placeholders in text order. */
  ghost predicate ArePlaceholders(letter: Classifier, s: string, at: seq<nat>) {
    Increasing(at) && forall p: nat :: p in at <==> Visits(letter, s, 0, p) && StartsName(s, p)
  }

  lemma StartsArePlaceholders(letter: Classifier, s: string)
    ensures ArePlaceholders(letter, s, Starts(letter, s, 0))
  {
    StartsIncrease(letter, s, 0);
    forall p: nat
      ensures p in Starts(letter, s, 0) <==> Visits(letter, s, 0, p) && StartsName(s, p)
    {
      StartsAreVisited(letter, s, 0, p);
    }
  }

  /** A colon dangles exactly when one that lies outside every comment, string and name is the last character. */
  lemma {:induction false} DanglesExactlyWhen(letter: Classifier, s: string, i: nat)
    requires i <= |s|
    ensures DanglingColon in Tokens(letter, s, i) <==> |s| > 0 && s[|s| - 1] == ':' && Visits(letter, s, i, |s| - 1)
    decreases |s| - i
  {
    if i < |s| {
      var e := Next(letter, s, i);
      DanglesExactlyWhen(letter, s, e);
      VisitedIsAhead(letter, s, e, |s| - 1);
      if Skip(s, i).None? && s[i] == ':' {
        if i + 1 == |s| {
          assert Tokens(letter, s, i) == [DanglingColon];
        } else if s[i + 1] != '=' {
          assert Tokens(letter, s, i) == [Name(s[i + 1..e])] + Tokens(letter, s, e);
        }
      }
    }
  }

  /** Parsing succeeds exactly when no such colon is the last character and no more than 65536 of them start placeholders. */
  lemma {:induction false} ParseSucceedsExactly(letter: Classifier, s: string)
    ensures Parse(letter, s).Ok?
       <==> !(|s| > 0 && s[|s| - 1] == ':' && Visits(letter, s, 0, |s| - 1)) && |Starts(letter, s, 0)| <= 0x1_0000
  {
    ParseIsConsistent(letter, s);
    DanglesExactlyWhen(letter, s, 0);
    NamesAreAtStarts(letter, s, 0);
  }

  // ---------------------------------------------------------------------------------------------
  // The constructs in the text
  // ---------------------------------------------------------------------------------------------

  /** The pair `a`, `b` closes at `e` what is open from `j` on, or never comes and `e` is the end of the text. */
  ghost predicate ClosesAt(s: string, j: nat, a: char, b: char, e: nat) {
    if exists k :: j <= k && PairAt(s, k, a, b)
    then j + 2 <= e && PairAt(s, e - 2, a, b) && forall k :: j <= k < e - 2 ==> !PairAt(s, k, a, b)
    else e == |s|
  }

  /** From `j` on comes text with doubled quotes and a closing quote before `e`, or no closing quote and `e` is the end. */
  ghost predicate QuoteClosesAt(s: string, j: nat, quote: char, e: nat)
    requires j <= |s|
  {
    || (j < e <= |s| && (exists text :: s[j..e] == Escaped(text, quote) + [quote]) && (e < |s| ==> s[e] != quote))
    || (e == |s| && exists text :: s[j..e] == Escaped(text, quote) + [])
  }

  ghost predicate IsLineComment(s: string, i: nat, e: nat) {
    && PairAt(s, i, '-', '-') && i + 2 <= e <= |s|
    && (forall k :: i + 2 <= k < e ==> s[k] != '\n') && (e < |s| ==> s[e] == '\n')
  }

  ghost predicate IsBlockComment(s: string, i: nat, e: nat) { PairAt(s, i, '/', '*') && ClosesAt(s, i + 2, '*', '/', e) }

  /** `q'[ ... ]'` and its kin; a bracket is closed by its counterpart, any other delimiter but a blank by itself. */
  ghost predicate IsLiteral(s: string, i: nat, e: nat) {
    && (PairAt(s, i, 'q', '\'') || PairAt(s, i, 'Q', '\'')) && i + 2 < |s|
    && s[i + 2] != ' ' && s[i + 2] != '\t' && s[i + 2] != '\r'
    && (s[i + 2] == '[' ==> ClosesAt(s, i + 3, ']', '\'', e))
    && (s[i + 2] == '{' ==> ClosesAt(s, i + 3, '}', '\'', e))
    && (s[i + 2] == '<' ==> ClosesAt(s, i + 3, '>', '\'', e))
    && (s[i + 2] == '(' ==> ClosesAt(s, i + 3, ')', '\'', e))
    && (s[i + 2] !in "[{<(" ==> ClosesAt(s, i + 3, s[i + 2], '\'', e))
  }

  ghost predicate IsQuoted(s: string, i: nat, e: nat) {
    i < |s| && (s[i] == '\'' || s[i] == '"') && QuoteClosesAt(s, i + 1, s[i], e)
  }

  lemma {:induction false} QuoteEndIsUnique(s: string, j: nat, quote: char, e: nat)
    requires j <= |s| && QuoteClosesAt(s, j, quote, e)
    ensures QuoteEnd(s, j, quote) == e
  {
    if e == |s| && exists text :: s[j..e] == Escaped(text, quote) + [] {
      var text :| s[j..e] == Escaped(text, quote) + [];
      assert s[j..] == s[j..e];
      QuoteEndOfUnclosed(s, j, text, quote);
    } else {
      var text :| s[j..e] == Escaped(text, quote) + [quote];
      assert s[j..] == s[j..e] + s[e..];
      QuoteEndOfEscaped(s, j, text, quote, s[e..]);
      assert |s[j..e]| == e - j;
    }
  }

  lemma {:induction false} QuoteEndOfUnclosed(s: string, j: nat, text: string, quote: char)
    requires j <= |s| && s[j..] == Escaped(text, quote)
    ensures QuoteEnd(s, j, quote) == |s|
    decreases |text|
  {
    if text != [] {
      var head, tail := if text[0] == quote then [quote, quote] else [text[0]], Escaped(text[1..], quote);
      assert s[j..] == head + tail;
      SuffixAfter(s, j, head, tail);
      QuoteEndOfUnclosed(s, j + |head|, text[1..], quote);
    }
  }

  /** The end that the scanner finds closes the quote. */
  lemma {:induction false} QuoteEndCloses(s: string, j: nat, quote: char)
    requires j <= |s|
    ensures QuoteClosesAt(s, j, quote, QuoteEnd(s, j, quote))
    decreases |s| - j
  {
    var none: string := [];
    if j == |s| {
      assert s[j..j] == Escaped(none, quote) + [];
    } else if s[j] != quote {
      QuoteEndCloses(s, j + 1, quote);
      QuoteGrows(s, j, 1, s[j], quote, QuoteEnd(s, j + 1, quote));
    } else if j + 1 < |s| && s[j + 1] == quote {
      QuoteEndCloses(s, j + 2, quote);
      QuoteGrows(s, j, 2, quote, quote, QuoteEnd(s, j + 2, quote));
    } else {
      assert s[j..j + 1] == Escaped(none, quote) + [quote];
    }
  }

  lemma {:induction false} QuoteGrows(s: string, j: nat, n: nat, c: char, quote: char, e: nat)
    requires j + n <= |s| && QuoteClosesAt(s, j + n, quote, e)
    requires s[j..j + n] == if c == quote then [quote, quote] else [c]
    ensures QuoteClosesAt(s, j, quote, e)
  {
    if e == |s| && exists text :: s[j + n..e] == Escaped(text, quote) + [] {
      var text :| s[j + n..e] == Escaped(text, quote) + [];
      TextGrows(s, j, n, |s|, c, text, quote, []);
    } else {
      var text :| s[j + n..e] == Escaped(text, quote) + [quote];
      TextGrows(s, j, n, e, c, text, quote, [quote]);
    }
  }

  lemma TextGrows(s: string, j: nat, n: nat, e: nat, c: char, text: string, quote: char, tail: string)
    requires j + n <= e <= |s| && s[j + n..e] == Escaped(text, quote) + tail
    requires s[j..j + n] == if c == quote then [quote, quote] else [c]
    ensures s[j..e] == Escaped([c] + text, quote) + tail
  {
    SplitAt(s, j, j + n, e);
    EscapedGrows(text, c, quote);
  }

  lemma SplitAt(s: string, j: nat, m: nat, e: nat)
    requires j <= m <= e <= |s|
    ensures s[j..e] == s[j..m] + s[m..e]
  {
  }

  lemma EscapedGrows(text: string, c: char, quote: char)
    ensures Escaped([c] + text, quote) == (if c == quote then [quote, quote] else [c]) + Escaped(text, quote)
  {
    assert ([c] + text)[1..] == text;
  }

  lemma {:induction false} LineEndIsUnique(s: string, j: nat, e: nat)
    requires j <= e <= |s| && (forall k :: j <= k < e ==> s[k] != '\n') && (e < |s| ==> s[e] == '\n')
    ensures LineEnd(s, j) == e
  {
    LineEndIsFirstNewline(s, j);
    var f := LineEnd(s, j);
    assert !(f < e) && !(e < f);
  }

  lemma {:induction false} ClosesAtOnePlace(s: string, j: nat, a: char, b: char, e: nat, f: nat)
    requires ClosesAt(s, j, a, b, e) && ClosesAt(s, j, a, b, f)
    ensures e == f
  {
  }

  lemma {:induction false} LiteralSkipIsExact(s: string, i: nat, e: nat)
    requires AlternativeQuote(s, i)
    ensures Skip(s, i) == Some(e) <==> IsLiteral(s, i, e)
  {
    var closing := Closing(s[i + 2]);
    LiteralEndIsFirstClosing(s, i + 3, closing);
    assert ClosesAt(s, i + 3, closing, '\'', LiteralEnd(s, i + 3, closing));
    assert IsLiteral(s, i, e) ==> ClosesAt(s, i + 3, closing, '\'', e);
    if IsLiteral(s, i, e) {
      ClosesAtOnePlace(s, i + 3, closing, '\'', e, LiteralEnd(s, i + 3, closing));
    }
  }

  /** The scanner passes over exactly the line comments, block comments, quoted texts and alternative-quoted literals, each up to
      its end in the text. */
  lemma {:induction false} SkipIsExact(s: string, i: nat, e: nat)
    requires i < |s|
    ensures Skip(s, i) == Some(e) <==> IsLineComment(s, i, e) || IsBlockComment(s, i, e) || IsLiteral(s, i, e) || IsQuoted(s, i, e)
  {
    if PairAt(s, i, '-', '-') {
      LineEndIsFirstNewline(s, i + 2);
      if IsLineComment(s, i, e) {
        LineEndIsUnique(s, i + 2, e);
      }
    } else if PairAt(s, i, '/', '*') {
      BlockEndIsFirstClosing(s, i + 2);
      assert ClosesAt(s, i + 2, '*', '/', BlockEnd(s, i + 2));
      if IsBlockComment(s, i, e) {
        ClosesAtOnePlace(s, i + 2, '*', '/', e, BlockEnd(s, i + 2));
      }
    } else if AlternativeQuote(s, i) {
      LiteralSkipIsExact(s, i, e);
    } else if s[i] == '\'' || s[i] == '"' {
      QuoteEndCloses(s, i + 1, s[i]);
      if IsQuoted(s, i, e) {
        QuoteEndIsUnique(s, i + 1, s[i], e);
      }
    }
  }

  /** The characters of a name: letters and digits, and four others. */
  lemma NameCharacters(letter: Classifier, c: char)
    ensures InName(letter, c) <==> letter(c) || c in "_$#@"
  {
  }
}
