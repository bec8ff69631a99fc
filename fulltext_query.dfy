/**
 * The fulltext index's query-string parser (arangod/FulltextIndex/fulltext-query.cpp).
 * A query string is a list of words separated by blanks or commas; each
 * word may carry a sign (`+` and, `|` or, `-` exclude) and a command
 * (`prefix:` asks for a prefix match). The parsed words are stored in the
 * three arrays of a query object at consecutive positions.
 */
module FulltextQuery {
  import opened Common

  /** The error codes the parser returns. */
  datatype ErrorCode = NoError | BadParameter | OutOfMemory

  /** `TRI_fulltext_query_match_e` (substring matching is disabled in the source). */
  datatype Match = Complete | Prefix

  /** `TRI_fulltext_query_operation_e`. */
  datatype Operation = And | Or | Exclude

  /** A parsed search word before normalisation. */
  datatype QueryWord = QueryWord(word: string, matching: Match, operation: Operation)

  /**
   * `TRI_FULLTEXT_SEARCH_MAX_WORDS`, declared in fulltext-index.h; that
   * header is not part of this model, and no proof depends on the value.
   */
  const MaxSearchWords: nat := 32

  /** The characters that separate words: space, `\t`, `\r`, `\n`, `\f`, `\b` and `,`. */
  predicate IsSeparator(c: char) {
    c == ' ' || c == '\t' || c == '\r' || c == '\n' || c == '\U{C}' || c == '\U{8}' || c == ','
  }

  /** The characters that may start a word as its sign. */
  predicate IsSign(c: char) {
    c == '+' || c == '-' || c == '|'
  }

  /** `ParseOperation`: `|` is OR, `-` is EXCLUDE, anything else (so `+`) is AND. */
  function ParseOperation(c: char): (op: Operation)
    ensures op == Or <==> c == '|'
    ensures op == Exclude <==> c == '-'
  {
    if c == '|' then Or
    else if c == '-' then Exclude
    else And
  }

  /** ASCII lower-casing, as used by the case-insensitive comparison of commands. */
  function AsciiLower(c: char): char {
    if 'A' <= c <= 'Z' then (c as int + 32) as char else c
  }

  /** Whether `s` starts with `lit`, ignoring ASCII case; a shorter `s` never does. */
  predicate CaseEqualPrefix(s: string, lit: string) {
    |s| >= |lit| && forall k :: 0 <= k < |lit| ==> AsciiLower(s[k]) == AsciiLower(lit[k])
  }

  /** The length of the run of non-separator characters that starts `s`. */
  function RunLength(s: string): (n: nat)
    ensures n <= |s|
    ensures forall k :: 0 <= k < n ==> !IsSeparator(s[k])
    ensures n < |s| ==> IsSeparator(s[n])
  {
    if s == [] || IsSeparator(s[0]) then 0 else 1 + RunLength(s[1..])
  }

  /** The tokens of a query string: its maximal runs of non-separator characters, in order. */
  function Tokens(s: string): seq<string>
    decreases |s|
  {
    if s == [] then []
    else if IsSeparator(s[0]) then Tokens(s[1..])
    else [s[..RunLength(s)]] + Tokens(s[RunLength(s)..])
  }

  /** A token sequence of joined words: non-empty and free of separators. */
  predicate IsToken(t: string) {
    t != [] && forall k :: 0 <= k < |t| ==> !IsSeparator(t[k])
  }

  /** Every token is non-empty and contains no separator. */
  lemma {:induction false} TokensAreWords(s: string)
    ensures forall k :: 0 <= k < |Tokens(s)| ==> IsToken(Tokens(s)[k])
    decreases |s|
  {
    if s == [] {
    } else if IsSeparator(s[0]) {
      TokensAreWords(s[1..]);
    } else {
      TokensAreWords(s[RunLength(s)..]);
    }
  }

  /** A string made only of separators (or empty) has no tokens. */
  lemma {:induction false} SeparatorsOnlyHaveNoTokens(s: string)
    requires forall k :: 0 <= k < |s| ==> IsSeparator(s[k])
    ensures Tokens(s) == []
    decreases |s|
  {
    if s != [] {
      SeparatorsOnlyHaveNoTokens(s[1..]);
    }
  }

  /** Words joined with single spaces. */
  function JoinWithSpaces(ts: seq<string>): string {
    if ts == [] then []
    else if |ts| == 1 then ts[0]
    else ts[0] + " " + JoinWithSpaces(ts[1..])
  }

  /** Splitting undoes joining with spaces. */
  lemma {:induction false} TokensOfJoined(ts: seq<string>)
    requires forall k :: 0 <= k < |ts| ==> IsToken(ts[k])
    ensures Tokens(JoinWithSpaces(ts)) == ts
  {
    if ts == [] {
    } else {
      var t := ts[0];
      var s := JoinWithSpaces(ts);
      if |ts| == 1 {
        assert s == t;
        assert RunLength(s) == |t|;
        assert s[..|t|] == t && s[|t|..] == [];
      } else {
        var rest := JoinWithSpaces(ts[1..]);
        assert s == t + " " + rest;
        assert s[|t|] == ' ';
        assert forall k :: 0 <= k < |t| ==> s[k] == t[k];
        assert RunLength(s) == |t|;
        assert s[..|t|] == t;
        assert s[|t|..] == " " + rest;
        assert (" " + rest)[1..] == rest;
        TokensOfJoined(ts[1..]);
        assert Tokens(s) == [t] + ts[1..];
        assert [t] + ts[1..] == ts;
      }
    }
  }

  /** The position of the first `:` in `s`, if any. */
  function FirstColon(s: string): (r: Option<nat>)
    ensures r.None? <==> forall k :: 0 <= k < |s| ==> s[k] != ':'
    ensures r.Some? ==> r.value < |s| && s[r.value] == ':' && forall k :: 0 <= k < r.value ==> s[k] != ':'
  {
    if s == [] then None
    else if s[0] == ':' then Some(0)
    else match FirstColon(s[1..])
      case None => None
      case Some(c) => Some(c + 1)
  }

  /**
   * A token as the parser reads it: an optional sign, then the body. A
   * body that is empty, or whose first `:` is its last character, is
   * rejected (`None`). Otherwise everything up to the first `:` is dropped,
   * and the match is PREFIX exactly when the body starts with `prefix:` in
   * any case (`complete:` and any other command give COMPLETE).
   */
  function ParseTerm(token: string): (r: Option<QueryWord>)
    requires token != []
    ensures r.Some? ==> r.value.word != []
    ensures r.Some? ==> (r.value.operation == Or <==> token[0] == '|')
    ensures r.Some? ==> (r.value.operation == Exclude <==> token[0] == '-')
  {
    if IsSign(token[0]) then ParseBody(token[1..], ParseOperation(token[0]))
    else ParseBody(token, And)
  }

  /** A token's body, the part after its sign, with the operation the sign gave. */
  function ParseBody(body: string, operation: Operation): (r: Option<QueryWord>)
    ensures r.Some? ==> r.value.word != [] && r.value.operation == operation
  {
    if body == [] then None
    else match FirstColon(body)
      case None => Some(QueryWord(body, Complete, operation))
      case Some(c) =>
        if c + 1 == |body| then None
        else Some(QueryWord(body[c + 1..], if CaseEqualPrefix(body, "prefix:") then Prefix else Complete, operation))
  }

  /** Whether the `k`-th token is stored: it parses, position `k` exists and its word normalises. */
  predicate TermStored(token: string, k: nat, numWords: nat, normalise: string -> Option<string>) {
    token != [] && ParseTerm(token).Some? && k < numWords && normalise(ParseTerm(token).value.word).Some?
  }

  /**
   * The number of tokens, from `k` on, stored before parsing stops: the
   * next one fails to be stored, or the tokens or the word limit run out.
   */
  function Accepted(toks: seq<string>, k: nat, numWords: nat, normalise: string -> Option<string>): (f: nat)
    requires k <= |toks|
    ensures k <= f <= |toks|
    ensures k <= MaxSearchWords ==> f <= MaxSearchWords
    ensures forall j :: k <= j < f ==> TermStored(toks[j], j, numWords, normalise)
    ensures f < |toks| && f < MaxSearchWords ==> !TermStored(toks[f], f, numWords, normalise)
    decreases |toks| - k
  {
    if k == |toks| || k >= MaxSearchWords || !TermStored(toks[k], k, numWords, normalise) then k
    else Accepted(toks, k + 1, numWords, normalise)
  }

  /** Whether parsing `s` stops at a token that parses but does not normalise, clearing that position. */
  predicate ClearsFailedWord(s: string, numWords: nat, normalise: string -> Option<string>) {
    var toks := Tokens(s);
    var f := Accepted(toks, 0, numWords, normalise);
    f < |toks| && f < MaxSearchWords && toks[f] != [] && ParseTerm(toks[f]).Some? && f < numWords
  }

  /**
   * The result code of `TRI_ParseQueryFulltextIndex`: BAD_PARAMETER for an
   * empty string, for a malformed token, and when no word was stored;
   * OUT_OF_MEMORY when a word does not fit or does not normalise.
   */
  function ParseCode(s: string, numWords: nat, normalise: string -> Option<string>): ErrorCode {
    var toks := Tokens(s);
    var f := Accepted(toks, 0, numWords, normalise);
    if s == [] then BadParameter
    else if f < |toks| && f < MaxSearchWords then
      (if toks[f] == [] || ParseTerm(toks[f]).None? then BadParameter else OutOfMemory)
    else if f == 0 then BadParameter
    else NoError
  }

  /** The normalised word of a stored token. */
  function StoredWord(token: string, normalise: string -> Option<string>): Option<string>
    requires token != [] && ParseTerm(token).Some?
  {
    normalise(ParseTerm(token).value.word)
  }

  /** Accepted tokens can be skipped over. */
  lemma {:induction false} AcceptedSkip(toks: seq<string>, k: nat, i: nat, numWords: nat, normalise: string -> Option<string>)
    requires k <= i <= |toks| && i <= MaxSearchWords
    requires forall j :: k <= j < i ==> TermStored(toks[j], j, numWords, normalise)
    ensures Accepted(toks, k, numWords, normalise) == Accepted(toks, i, numWords, normalise)
    decreases i - k
  {
    if k < i {
      AcceptedSkip(toks, k + 1, i, numWords, normalise);
    }
  }

  /** An empty query string, or one made only of separators, is rejected with BAD_PARAMETER. */
  lemma BlankQueryRejected(s: string, numWords: nat, normalise: string -> Option<string>)
    requires forall k :: 0 <= k < |s| ==> IsSeparator(s[k])
    ensures ParseCode(s, numWords, normalise) == BadParameter
  {
    SeparatorsOnlyHaveNoTokens(s);
  }

  /**
   * Parsing succeeds exactly when the string has a token and each of its
   * first tokens, up to the word limit, parses, fits and normalises.
   */
  lemma ParseSucceedsIff(s: string, numWords: nat, normalise: string -> Option<string>)
    ensures ParseCode(s, numWords, normalise) == NoError <==>
              (|Tokens(s)| > 0 &&
               forall k :: 0 <= k < |Tokens(s)| && k < MaxSearchWords ==> TermStored(Tokens(s)[k], k, numWords, normalise))
  {
    var toks := Tokens(s);
    var f := Accepted(toks, 0, numWords, normalise);
    if |toks| > 0 && forall k :: 0 <= k < |toks| && k < MaxSearchWords ==> TermStored(toks[k], k, numWords, normalise) {
      assert s != [];
      assert f == |toks| || f == MaxSearchWords;
    }
  }

  /** The token a parsed word is written as: its sign, `prefix:` for a prefix match, then the word. */
  function FormatTerm(w: QueryWord): string {
    [match w.operation case And => '+' case Or => '|' case Exclude => '-']
    + (if w.matching == Prefix then "prefix:" else "")
    + w.word
  }

  /** Words the formatter can write: non-empty, no separator, and no `:` unless behind `prefix:`. */
  predicate Formattable(w: QueryWord) {
    IsToken(w.word) && (w.matching == Complete ==> forall k :: 0 <= k < |w.word| ==> w.word[k] != ':')
  }

  /** A formatted word is a single token. */
  lemma FormattedIsToken(w: QueryWord)
    requires Formattable(w)
    ensures IsToken(FormatTerm(w))
  {
    var t := FormatTerm(w);
    forall k | 0 <= k < |t| ensures !IsSeparator(t[k]) {
      if k == 0 {
      } else if w.matching == Prefix && k < 8 {
        assert t[k] == "prefix:"[k - 1];
      } else if w.matching == Prefix {
        assert t[k] == w.word[k - 8];
      } else {
        assert t[k] == w.word[k - 1];
      }
    }
  }

  /** A body made of `prefix:` and a word parses to a prefix match of that word. */
  lemma PrefixBody(word: string, operation: Operation)
    requires word != []
    ensures ParseBody("prefix:" + word, operation) == Some(QueryWord(word, Prefix, operation))
  {
    var body := "prefix:" + word;
    assert body[6] == ':';
    assert forall k :: 0 <= k < 7 ==> body[k] == "prefix:"[k];
    assert FirstColon(body) == Some(6);
    assert CaseEqualPrefix(body, "prefix:");
    assert body[7..] == word;
  }

  /** Parsing a formatted word gives the word back. */
  lemma ParseFormattedTerm(w: QueryWord)
    requires Formattable(w)
    ensures IsToken(FormatTerm(w))
    ensures ParseTerm(FormatTerm(w)) == Some(w)
  {
    FormattedIsToken(w);
    if w.matching == Prefix {
      ParseFormattedPrefix(w);
    } else {
      ParseFormattedComplete(w);
    }
  }

  /** Parsing a formatted prefix word gives the word back. */
  lemma ParseFormattedPrefix(w: QueryWord)
    requires Formattable(w) && w.matching == Prefix
    ensures ParseTerm(FormatTerm(w)) == Some(w)
  {
    FormattedSign(w);
    PrefixBody(w.word, w.operation);
  }

  /** A formatted word starts with the sign of its operation, followed by its body. */
  lemma FormattedSign(w: QueryWord)
    ensures IsSign(FormatTerm(w)[0]) && ParseOperation(FormatTerm(w)[0]) == w.operation
    ensures FormatTerm(w)[1..] == (if w.matching == Prefix then "prefix:" else "") + w.word
  {
    var sign := match w.operation case And => '+' case Or => '|' case Exclude => '-';
    var body := (if w.matching == Prefix then "prefix:" else "") + w.word;
    assert FormatTerm(w) == [sign] + body;
  }

  /** Parsing a formatted complete word gives the word back. */
  lemma ParseFormattedComplete(w: QueryWord)
    requires Formattable(w) && w.matching == Complete
    ensures ParseTerm(FormatTerm(w)) == Some(w)
  {
    FormattedSign(w);
    assert FormatTerm(w)[1..] == w.word;
  }

  /** A query formatted from fitting words parses without error and stores each of them. */
  lemma ParseFormattedQuery(ws: seq<QueryWord>, numWords: nat, normalise: string -> Option<string>)
    requires 0 < |ws| <= MaxSearchWords && |ws| <= numWords
    requires forall k :: 0 <= k < |ws| ==> Formattable(ws[k]) && normalise(ws[k].word).Some?
    ensures var s := JoinWithSpaces(seq(|ws|, k requires 0 <= k < |ws| => FormatTerm(ws[k])));
            ParseCode(s, numWords, normalise) == NoError
            && Tokens(s) == seq(|ws|, k requires 0 <= k < |ws| => FormatTerm(ws[k]))
            && forall k :: 0 <= k < |ws| ==> ParseTerm(Tokens(s)[k]) == Some(ws[k])
  {
    var ts := seq(|ws|, k requires 0 <= k < |ws| => FormatTerm(ws[k]));
    forall k | 0 <= k < |ws| ensures IsToken(ts[k]) && ParseTerm(ts[k]) == Some(ws[k]) {
      ParseFormattedTerm(ws[k]);
    }
    TokensOfJoined(ts);
    ParseSucceedsIff(JoinWithSpaces(ts), numWords, normalise);
  }

  /** Moving one scanned token from the remaining tokens to the processed ones. */
  lemma ConsumeToken(toks: seq<string>, i: nat, token: string, rest: seq<string>)
    requires i <= |toks| && toks[i..] == [token] + rest
    ensures i < |toks| && toks[i] == token && toks[i + 1..] == rest
  {
    assert toks[i..][0] == token;
    assert toks[i + 1..] == toks[i..][1..];
  }

  /** A separator contributes no token. */
  lemma SkipSeparator(s: string, ptr: nat)
    requires ptr < |s| && IsSeparator(s[ptr])
    ensures Tokens(s[ptr..]) == Tokens(s[ptr + 1..])
  {
    assert s[ptr..][1..] == s[ptr + 1..];
  }

  /** Scanning a maximal run from a token start yields the next token. */
  lemma ScanToken(s: string, tokStart: nat, end: nat)
    requires tokStart < end <= |s|
    requires forall k :: tokStart <= k < end ==> !IsSeparator(s[k])
    requires end == |s| || IsSeparator(s[end])
    ensures Tokens(s[tokStart..]) == [s[tokStart..end]] + Tokens(s[end..])
  {
    var r := s[tokStart..];
    assert RunLength(r) == end - tokStart;
    assert r[..end - tokStart] == s[tokStart..end];
    assert r[end - tokStart..] == s[end..];
  }

  /** Within a maximal run, comparing the rest of the string with a command compares the run. */
  lemma CommandWithinRun(s: string, start: nat, end: nat, lit: string)
    requires start <= end <= |s|
    requires end == |s| || IsSeparator(s[end])
    requires forall k :: 0 <= k < |lit| ==> !IsSeparator(lit[k]) && AsciiLower(lit[k]) == lit[k]
    ensures CaseEqualPrefix(s[start..], lit) == CaseEqualPrefix(s[start..end], lit)
  {
  }

  /**
   * The inner scan of `TRI_ParseQueryFulltextIndex`: from `start`, advance
   * to the next separator or the end of the string, and note the position
   * just after the first `:` met on the way.
   */
  method ScanWord(s: string, start: nat) returns (end: nat, split: Option<nat>)
    requires start <= |s|
    ensures start <= end <= |s|
    ensures forall k :: start <= k < end ==> !IsSeparator(s[k])
    ensures end == |s| || IsSeparator(s[end])
    ensures split.None? <==> forall k :: start <= k < end ==> s[k] != ':'
    ensures split.Some? ==> start < split.value <= end && s[split.value - 1] == ':'
                            && forall k :: start <= k < split.value - 1 ==> s[k] != ':'
  {
    var ptr := start;
    split := None;
    while ptr < |s|
      invariant start <= ptr <= |s|
      invariant forall k :: start <= k < ptr ==> !IsSeparator(s[k])
      invariant split.None? <==> forall k :: start <= k < ptr ==> s[k] != ':'
      invariant split.Some? ==> start < split.value <= ptr && s[split.value - 1] == ':'
                                && forall k :: start <= k < split.value - 1 ==> s[k] != ':'
    {
      var c := s[ptr];
      if IsSeparator(c) {
        break;
      } else if split.None? && c == ':' {
        split := Some(ptr + 1);
      }
      ptr := ptr + 1;
    }
    end := ptr;
  }

  /** What a scanned token parses to, in terms of the positions the scan found. */
  lemma ScannedTerm(s: string, tokStart: nat, start: nat, end: nat, split: Option<nat>)
    requires tokStart < |s| && !IsSeparator(s[tokStart])
    requires start == tokStart + (if IsSign(s[tokStart]) then 1 else 0)
    requires start <= end <= |s|
    requires forall k :: start <= k < end ==> !IsSeparator(s[k])
    requires end == |s| || IsSeparator(s[end])
    requires split.None? <==> forall k :: start <= k < end ==> s[k] != ':'
    requires split.Some? ==> start < split.value <= end && s[split.value - 1] == ':'
                             && forall k :: start <= k < split.value - 1 ==> s[k] != ':'
    requires tokStart < end
    ensures ParseTerm(s[tokStart..end]) ==
              if end == start || (split.Some? && end == split.value) then None
              else Some(QueryWord(if split.Some? then s[split.value..end] else s[start..end],
                                  if split.Some? && CaseEqualPrefix(s[start..], "prefix:") then Prefix else Complete,
                                  if IsSign(s[tokStart]) then ParseOperation(s[tokStart]) else And))
  {
    var token := s[tokStart..end];
    assert token[0] == s[tokStart];
    if IsSign(token[0]) {
      assert token[1..] == s[start..end];
    } else {
      assert token == s[start..end];
    }
    ScannedBody(s, start, end, split, if IsSign(s[tokStart]) then ParseOperation(s[tokStart]) else And);
  }

  /** What a scanned body parses to. */
  lemma ScannedBody(s: string, start: nat, end: nat, split: Option<nat>, operation: Operation)
    requires start <= end <= |s|
    requires end == |s| || IsSeparator(s[end])
    requires split.None? <==> forall k :: start <= k < end ==> s[k] != ':'
    requires split.Some? ==> start < split.value <= end && s[split.value - 1] == ':'
                             && forall k :: start <= k < split.value - 1 ==> s[k] != ':'
    ensures ParseBody(s[start..end], operation) ==
              if end == start || (split.Some? && end == split.value) then None
              else Some(QueryWord(if split.Some? then s[split.value..end] else s[start..end],
                                  if split.Some? && CaseEqualPrefix(s[start..], "prefix:") then Prefix else Complete,
                                  operation))
  {
    if split.Some? {
      ScannedWithColon(s, start, end, split.value, operation);
    } else {
      ScannedWithoutColon(s, start, end, operation);
    }
  }

  /** A scanned body with a colon at `split - 1` parses to the word after it, when there is one. */
  lemma ScannedWithColon(s: string, start: nat, end: nat, split: nat, operation: Operation)
    requires start < split <= end <= |s| && s[split - 1] == ':'
    requires end == |s| || IsSeparator(s[end])
    requires forall k :: start <= k < split - 1 ==> s[k] != ':'
    ensures ParseBody(s[start..end], operation) ==
              if end == split then None
              else Some(QueryWord(s[split..end], if CaseEqualPrefix(s[start..], "prefix:") then Prefix else Complete, operation))
  {
    var body := s[start..end];
    var c := split - 1 - start;
    assert body[c] == s[split - 1];
    assert forall k :: 0 <= k < c ==> body[k] != ':' by {
      forall k | 0 <= k < c ensures body[k] != ':' {
        assert body[k] == s[start + k];
      }
    }
    BodyWithColon(body, c, operation);
    CommandWithinRun(s, start, end, "prefix:");
    assert s[split..end] == body[c + 1..];
  }

  /** A scanned body without a colon parses to itself as a complete word, when it is not empty. */
  lemma ScannedWithoutColon(s: string, start: nat, end: nat, operation: Operation)
    requires start <= end <= |s|
    requires forall k :: start <= k < end ==> s[k] != ':'
    ensures ParseBody(s[start..end], operation) ==
              if end == start then None else Some(QueryWord(s[start..end], Complete, operation))
  {
    var body := s[start..end];
    assert forall k :: 0 <= k < |body| ==> body[k] != ':' by {
      forall k | 0 <= k < |body| ensures body[k] != ':' {
        assert body[k] == s[start + k];
      }
    }
    BodyWithoutColon(body, operation);
  }

  lemma BodyWithoutColon(body: string, operation: Operation)
    requires forall k :: 0 <= k < |body| ==> body[k] != ':'
    ensures ParseBody(body, operation) == if body == [] then None else Some(QueryWord(body, Complete, operation))
  {
  }

  lemma BodyWithColon(body: string, c: nat, operation: Operation)
    requires c < |body| && body[c] == ':' && forall k :: 0 <= k < c ==> body[k] != ':'
    ensures ParseBody(body, operation) ==
              if c + 1 == |body| then None
              else Some(QueryWord(body[c + 1..], if CaseEqualPrefix(body, "prefix:") then Prefix else Complete, operation))
  {
    assert FirstColon(body) == Some(c);
  }

  /** The first `n` tokens are well formed. */
  predicate Parsed(toks: seq<string>, n: nat) {
    n <= |toks| && forall k :: 0 <= k < n ==> toks[k] != [] && ParseTerm(toks[k]).Some?
  }

  /** The word array once the first `n` tokens are stored over `w0`. */
  function StoredWords(toks: seq<string>, n: nat, normalise: string -> Option<string>,
                       w0: seq<Option<string>>): (w: seq<Option<string>>)
    requires Parsed(toks, n)
  {
    seq(|w0|, k requires 0 <= k < |w0| => if k < n then StoredWord(toks[k], normalise) else w0[k])
  }

  /** The match array once the first `n` tokens are stored over `m0`. */
  function StoredMatches(toks: seq<string>, n: nat, m0: seq<Match>): (m: seq<Match>)
    requires Parsed(toks, n)
  {
    seq(|m0|, k requires 0 <= k < |m0| => if k < n then ParseTerm(toks[k]).value.matching else m0[k])
  }

  /** The operation array once the first `n` tokens are stored over `o0`. */
  function StoredOperations(toks: seq<string>, n: nat, o0: seq<Operation>): (o: seq<Operation>)
    requires Parsed(toks, n)
  {
    seq(|o0|, k requires 0 <= k < |o0| => if k < n then ParseTerm(toks[k]).value.operation else o0[k])
  }

  /** The word array with position `f` cleared, as a failed normalisation leaves it. */
  function Cleared(w: seq<Option<string>>, f: nat): (r: seq<Option<string>>)
  {
    if f < |w| then w[f := None] else w
  }

  /** Storing token `n` at position `n` extends the stored prefix by one. */
  lemma StoreNext(toks: seq<string>, n: nat, normalise: string -> Option<string>,
                  w0: seq<Option<string>>, m0: seq<Match>, o0: seq<Operation>)
    requires Parsed(toks, n + 1) && n < |w0| && |m0| == |w0| && |o0| == |w0|
    ensures StoredWords(toks, n, normalise, w0)[n := StoredWord(toks[n], normalise)] == StoredWords(toks, n + 1, normalise, w0)
    ensures StoredMatches(toks, n, m0)[n := ParseTerm(toks[n]).value.matching] == StoredMatches(toks, n + 1, m0)
    ensures StoredOperations(toks, n, o0)[n := ParseTerm(toks[n]).value.operation] == StoredOperations(toks, n + 1, o0)
  {
  }

  /** Parsing stops at token `i`, `token`, when it is the first one not stored. */
  lemma StopsAt(s: string, i: nat, token: string, numWords: nat, normalise: string -> Option<string>)
    requires s != [] && i < |Tokens(s)| && i < MaxSearchWords && Tokens(s)[i] == token
    requires forall k :: 0 <= k < i ==> TermStored(Tokens(s)[k], k, numWords, normalise)
    requires !TermStored(token, i, numWords, normalise)
    ensures Accepted(Tokens(s), 0, numWords, normalise) == i
    ensures ParseCode(s, numWords, normalise) == if token == [] || ParseTerm(token).None? then BadParameter else OutOfMemory
    ensures ClearsFailedWord(s, numWords, normalise) <==> token != [] && ParseTerm(token).Some? && i < numWords
  {
    AcceptedSkip(Tokens(s), 0, i, numWords, normalise);
  }

  /** The empty query string is rejected before anything is stored. */
  lemma EmptyQuery(numWords: nat, normalise: string -> Option<string>)
    ensures Tokens([]) == [] && Accepted([], 0, numWords, normalise) == 0
    ensures ParseCode([], numWords, normalise) == BadParameter
    ensures !ClearsFailedWord([], numWords, normalise)
  {
  }

  /** Parsing ends after `i` stored tokens when the tokens or the word limit run out. */
  lemma EndsAfter(s: string, i: nat, numWords: nat, normalise: string -> Option<string>)
    requires s != [] && i <= |Tokens(s)| && i <= MaxSearchWords && (i == |Tokens(s)| || i == MaxSearchWords)
    requires forall k :: 0 <= k < i ==> TermStored(Tokens(s)[k], k, numWords, normalise)
    ensures Accepted(Tokens(s), 0, numWords, normalise) == i
    ensures ParseCode(s, numWords, normalise) == if i == 0 then BadParameter else NoError
    ensures !ClearsFailedWord(s, numWords, normalise)
  {
    AcceptedSkip(Tokens(s), 0, i, numWords, normalise);
  }

  /** The complete outcome when parsing stops at token `i`, `token`, which is not stored. */
  lemma StopOutcome(s: string, i: nat, token: string, numWords: nat, normalise: string -> Option<string>,
                    code: ErrorCode, w0: seq<Option<string>>, m0: seq<Match>, o0: seq<Operation>,
                    w: seq<Option<string>>, m: seq<Match>, o: seq<Operation>)
    requires s != [] && i < |Tokens(s)| && i < MaxSearchWords && Tokens(s)[i] == token && token != []
    requires forall k :: 0 <= k < i ==> TermStored(Tokens(s)[k], k, numWords, normalise)
    requires !TermStored(token, i, numWords, normalise)
    requires Parsed(Tokens(s), i) && |w0| == numWords
    requires code == BadParameter <==> ParseTerm(token).None?
    requires code != NoError
    requires m == StoredMatches(Tokens(s), i, m0) && o == StoredOperations(Tokens(s), i, o0)
    requires w == if code == OutOfMemory && i < numWords then StoredWords(Tokens(s), i, normalise, w0)[i := None]
                  else StoredWords(Tokens(s), i, normalise, w0)
    ensures var toks := Tokens(s);
            var f := Accepted(toks, 0, numWords, normalise);
            && code == ParseCode(s, numWords, normalise)
            && w == (if ClearsFailedWord(s, numWords, normalise)
                     then Cleared(StoredWords(toks, f, normalise, w0), f)
                     else StoredWords(toks, f, normalise, w0))
            && m == StoredMatches(toks, f, m0)
            && o == StoredOperations(toks, f, o0)
  {
    StopsAt(s, i, token, numWords, normalise);
  }

  /** The complete outcome when parsing ends after `i` stored tokens. */
  lemma EndOutcome(s: string, i: nat, numWords: nat, normalise: string -> Option<string>,
                   code: ErrorCode, w0: seq<Option<string>>, m0: seq<Match>, o0: seq<Operation>,
                   w: seq<Option<string>>, m: seq<Match>, o: seq<Operation>)
    requires s != [] && i <= |Tokens(s)| && i <= MaxSearchWords && (i == |Tokens(s)| || i == MaxSearchWords)
    requires forall k :: 0 <= k < i ==> TermStored(Tokens(s)[k], k, numWords, normalise)
    requires code == if i == 0 then BadParameter else NoError
    requires Parsed(Tokens(s), i)
    requires w == StoredWords(Tokens(s), i, normalise, w0)
    requires m == StoredMatches(Tokens(s), i, m0) && o == StoredOperations(Tokens(s), i, o0)
    ensures var toks := Tokens(s);
            var f := Accepted(toks, 0, numWords, normalise);
            && code == ParseCode(s, numWords, normalise)
            && w == (if ClearsFailedWord(s, numWords, normalise)
                     then Cleared(StoredWords(toks, f, normalise, w0), f)
                     else StoredWords(toks, f, normalise, w0))
            && m == StoredMatches(toks, f, m0)
            && o == StoredOperations(toks, f, o0)
  {
    EndsAfter(s, i, numWords, normalise);
  }

  /** A fulltext query object, `TRI_fulltext_query_t`: a word, a match and an operation per position. */
  class Query {
    const numWords: nat
    const maxResults: nat
    const words: array<Option<string>>
    const matches: array<Match>
    const operations: array<Operation>

    ghost predicate Valid()
      reads this
    {
      words.Length == numWords && matches.Length == numWords && operations.Length == numWords
    }

    /**
     * `TRI_CreateQueryFulltextIndex`: room for `numWords` words, all unset.
     * The source leaves matches and operations uninitialised; here they
     * start as COMPLETE and AND.
     */
    constructor (numWords: nat, maxResults: nat)
      ensures Valid() && fresh(words) && fresh(matches) && fresh(operations)
      ensures this.numWords == numWords && this.maxResults == maxResults
      ensures forall k :: 0 <= k < numWords ==> words[k] == None
    {
      this.numWords := numWords;
      this.maxResults := maxResults;
      words := new Option<string>[numWords](_ => None);
      matches := new Match[numWords](_ => Complete);
      operations := new Operation[numWords](_ => And);
    }

    /**
     * `TRI_SetQueryFulltextIndex`: store the normalised word with its match
     * and operation at `position`. A position out of range fails and writes
     * nothing; a word that does not normalise fails and clears the position.
     */
    method SetQuery(position: nat, word: string, matching: Match, operation: Operation,
                    normalise: string -> Option<string>) returns (ok: bool)
      requires Valid()
      modifies words, matches, operations
      ensures ok <==> position < numWords && normalise(word).Some?
      ensures ok ==> words[..] == old(words[..])[position := normalise(word)]
                     && matches[..] == old(matches[..])[position := matching]
                     && operations[..] == old(operations[..])[position := operation]
      ensures !ok ==> matches[..] == old(matches[..]) && operations[..] == old(operations[..])
      ensures !ok && position < numWords ==> words[..] == old(words[..])[position := None]
      ensures position >= numWords ==> words[..] == old(words[..])
    {
      if position >= numWords {
        return false;
      }
      var normalised := normalise(word);
      if normalised.None? {
        words[position] := None;
        return false;
      }
      words[position] := normalised;
      matches[position] := matching;
      operations[position] := operation;
      return true;
    }

    /**
     * One word of `TRI_ParseQueryFulltextIndex`, from its first character:
     * read the sign and the word up to the next separator, reject a
     * malformed token, and store the word at position `i`.
     */
    method ParseToken(s: string, ptr: nat, i: nat, normalise: string -> Option<string>) returns (code: ErrorCode, end: nat)
      requires Valid()
      requires ptr < |s| && !IsSeparator(s[ptr])
      modifies words, matches, operations
      ensures ptr < end <= |s| && Tokens(s[ptr..]) == [s[ptr..end]] + Tokens(s[end..])
      ensures code == BadParameter <==> ParseTerm(s[ptr..end]).None?
      ensures code == NoError <==> TermStored(s[ptr..end], i, numWords, normalise)
      ensures code == NoError ==>
                words[..] == old(words[..])[i := StoredWord(s[ptr..end], normalise)]
                && matches[..] == old(matches[..])[i := ParseTerm(s[ptr..end]).value.matching]
                && operations[..] == old(operations[..])[i := ParseTerm(s[ptr..end]).value.operation]
      ensures code != NoError ==> matches[..] == old(matches[..]) && operations[..] == old(operations[..])
      ensures code != NoError ==>
                words[..] == if code == OutOfMemory && i < numWords then old(words[..])[i := None] else old(words[..])
    {
      var c := s[ptr];
      var operation := And;
      var matching := Complete;
      var start := ptr;
      if c == '+' || c == '-' || c == '|' {
        operation := ParseOperation(c);
        start := ptr + 1;
      }
      var split;
      end, split := ScanWord(s, start);
      ScanToken(s, ptr, end);
      ScannedTerm(s, ptr, start, end, split);
      if end - start == 0 || (split.Some? && split.value - start == 0) || (split.Some? && end - split.value == 0) {
        return BadParameter, end;
      }
      if split.Some? {
        if CaseEqualPrefix(s[start..], "prefix:") {
          matching := Prefix;
        } else if CaseEqualPrefix(s[start..], "complete:") {
          matching := Complete;
        }
        start := split.value;
      }
      var ok := SetQuery(i, s[start..end], matching, operation, normalise);
      if !ok {
        return OutOfMemory, end;
      }
      return NoError, end;
    }

    /**
     * The turn of token `i` of `s`, from `ptr`, in `TRI_ParseQueryFulltextIndex`, with the
     * tokens before it stored over `w0`, `m0` and `o0`: either it is stored too and the scan
     * goes on after it, or parsing stops with the outcome `Parse` promises.
     */
    method ParseStep(s: string, ptr: nat, i: nat, normalise: string -> Option<string>,
                     ghost w0: seq<Option<string>>, ghost m0: seq<Match>, ghost o0: seq<Operation>)
      returns (code: ErrorCode, end: nat)
      requires Valid() && ptr < |s| && !IsSeparator(s[ptr])
      requires i < MaxSearchWords && i <= |Tokens(s)| && Tokens(s[ptr..]) == Tokens(s)[i..]
      requires (forall k :: 0 <= k < i ==> TermStored(Tokens(s)[k], k, numWords, normalise)) && Parsed(Tokens(s), i)
      requires words[..] == StoredWords(Tokens(s), i, normalise, w0)
      requires matches[..] == StoredMatches(Tokens(s), i, m0)
      requires operations[..] == StoredOperations(Tokens(s), i, o0)
      modifies words, matches, operations
      ensures code == NoError ==>
                && ptr < end <= |s| && i < |Tokens(s)| && Tokens(s[end..]) == Tokens(s)[i + 1..]
                && (forall k :: 0 <= k <= i ==> TermStored(Tokens(s)[k], k, numWords, normalise))
                && words[..] == StoredWords(Tokens(s), i + 1, normalise, w0)
                && matches[..] == StoredMatches(Tokens(s), i + 1, m0)
                && operations[..] == StoredOperations(Tokens(s), i + 1, o0)
      ensures code != NoError ==>
                var toks := Tokens(s);
                var f := Accepted(toks, 0, numWords, normalise);
                && code == ParseCode(s, numWords, normalise)
                && words[..] == (if ClearsFailedWord(s, numWords, normalise)
                                 then Cleared(StoredWords(toks, f, normalise, w0), f)
                                 else StoredWords(toks, f, normalise, w0))
                && matches[..] == StoredMatches(toks, f, m0)
                && operations[..] == StoredOperations(toks, f, o0)
    {
      ghost var toks := Tokens(s);
      code, end := ParseToken(s, ptr, i, normalise);
      ConsumeToken(toks, i, s[ptr..end], Tokens(s[end..]));
      if code != NoError {
        StopOutcome(s, i, s[ptr..end], numWords, normalise, code, w0, m0, o0, words[..], matches[..], operations[..]);
        return;
      }
      StoreNext(toks, i, normalise, w0, m0, o0);
    }

    /**
     * `TRI_ParseQueryFulltextIndex`: scan the query string token by token
     * and store each parsed word at the next position. The result code is
     * `ParseCode`; the tokens accepted before parsing stopped are stored at
     * positions 0, 1, ..., a token that parsed but did not normalise leaves
     * its position cleared, and every other position is unchanged.
     */
    method Parse(s: string, normalise: string -> Option<string>) returns (code: ErrorCode, isSubstringQuery: bool)
      requires Valid()
      modifies words, matches, operations
      ensures code == ParseCode(s, numWords, normalise)
      ensures !isSubstringQuery
      ensures var toks := Tokens(s);
              var f := Accepted(toks, 0, numWords, normalise);
              && words[..] == (if ClearsFailedWord(s, numWords, normalise)
                               then Cleared(StoredWords(toks, f, normalise, old(words[..])), f)
                               else StoredWords(toks, f, normalise, old(words[..])))
              && matches[..] == StoredMatches(toks, f, old(matches[..]))
              && operations[..] == StoredOperations(toks, f, old(operations[..]))
    {
      isSubstringQuery := false;
      ghost var toks := Tokens(s);
      if |s| == 0 {
        EmptyQuery(numWords, normalise);
        return BadParameter, false;
      }
      var ptr := 0;
      var i := 0;
      ghost var w0, m0, o0 := words[..], matches[..], operations[..];
      while ptr < |s|
        invariant 0 <= ptr <= |s|
        invariant i < MaxSearchWords && i <= |toks|
        invariant Tokens(s[ptr..]) == toks[i..]
        invariant forall k :: 0 <= k < i ==> TermStored(toks[k], k, numWords, normalise)
        invariant words[..] == StoredWords(toks, i, normalise, w0)
        invariant matches[..] == StoredMatches(toks, i, m0)
        invariant operations[..] == StoredOperations(toks, i, o0)
      {
        var c := s[ptr];
        if IsSeparator(c) {
          SkipSeparator(s, ptr);
          ptr := ptr + 1;
          continue;
        }
        var status, end := ParseStep(s, ptr, i, normalise, w0, m0, o0);
        if status != NoError {
          return status, false;
        }
        ptr := end;
        i := i + 1;
        if i >= MaxSearchWords {
          break;
        }
      }
      if ptr == |s| {
        assert s[ptr..] == [];
      }
      code := if i == 0 then BadParameter else NoError;
      EndOutcome(s, i, numWords, normalise, code, w0, m0, o0, words[..], matches[..], operations[..]);
    }
  }
}
