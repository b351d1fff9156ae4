/** `parse_query_for_language`: strips language words from a free-text search query. */
module QueryParsing {
  import opened Text

  /** The fixed keyword list. Its last entry has two words, so no single token equals it. */
  const LanguageKeywords: seq<string> :=
    ["hindi", "tamil", "telugu", "malayalam", "kannada", "bengali", "dubbed", "dual audio"]

  /** `part.lower() in language_keywords`. */
  predicate IsLanguageKeyword(word: string)
  {
    Lower(word) in LanguageKeywords
  }

  /** The list comprehension over `query.split()`: the tokens that are not keywords. */
  function BaseWords(words: seq<string>): (kept: seq<string>)
    ensures |kept| <= |words|
    ensures forall w :: w in kept <==> w in words && !IsLanguageKeyword(w)
  {
    if words == [] then []
    else if IsLanguageKeyword(words[0]) then BaseWords(words[1..])
    else [words[0]] + BaseWords(words[1..])
  }

  /** The pair returned by `parse_query_for_language`: the base title and the query itself. */
  datatype ParsedQuery = ParsedQuery(base: string, original: string)

  /** The tokens that are kept are re-joined with single spaces; when none is left the base
      query falls back to the query as given. Splitting the base query gives back exactly
      the kept tokens. */
  function ParseQueryForLanguage(query: string): (r: ParsedQuery)
    ensures r.original == query
    ensures BaseWords(Words(query)) == [] ==> r.base == query
    ensures BaseWords(Words(query)) != [] ==> r.base != "" && Words(r.base) == BaseWords(Words(query))
    ensures BaseWords(Words(query)) != [] ==> SingleSpaces(r.base)
  {
    var kept := BaseWords(Words(query));
    var joined := JoinSpace(kept);
    assert forall i :: 0 <= i < |kept| ==> kept[i] in Words(query);
    WordsOfJoin(kept);
    JoinSpaceSingleSpaces(kept);
    ParsedQuery(if joined == "" then query else joined, query)
  }

  /** Filtering keeps the relative order of the tokens: it works piecewise. */
  lemma {:induction false} BaseWordsAppend(a: seq<string>, b: seq<string>)
    ensures BaseWords(a + b) == BaseWords(a) + BaseWords(b)
  {
    if a == [] {
      assert a + b == b;
    } else {
      assert (a + b)[1..] == a[1..] + b;
      BaseWordsAppend(a[1..], b);
    }
  }

  /** No token of `split()` lower-cases to the two-word entry "dual audio". */
  lemma {:induction false} TwoWordKeywordNeverMatches(word: string)
    requires IsWord(word)
    ensures Lower(word) != "dual audio"
  {
    var low := Lower(word);
    LowerKeepsNonSpace(word);
    assert IsSpace("dual audio"[4]);
  }

  /** Hence "dual" and "audio" are kept, in any letter case. */
  lemma {:induction false} DualAndAudioSurvive(word: string)
    requires IsWord(word)
    requires Lower(word) == "dual" || Lower(word) == "audio"
    ensures !IsLanguageKeyword(word)
    ensures BaseWords([word]) == [word]
  {
  }

  /** A query that is empty or consists of whitespace only is its own base query. */
  lemma {:induction false} BlankQueryFallsBack(query: string)
    requires forall i :: 0 <= i < |query| ==> IsSpace(query[i])
    ensures ParseQueryForLanguage(query) == ParsedQuery(query, query)
  {
    WordsOfBlank(query);
  }

  /** Parsing the base query again changes nothing. */
  lemma {:induction false} ParseIdempotent(query: string)
    ensures ParseQueryForLanguage(ParseQueryForLanguage(query).base).base
         == ParseQueryForLanguage(query).base
  {
    var base := ParseQueryForLanguage(query).base;
    var kept := BaseWords(Words(query));
    if kept != [] {
      assert Words(base) == kept;
      BaseWordsOfKept(kept);
    }
  }

  /** Filtering tokens that survived filtering leaves them all. */
  lemma {:induction false} BaseWordsOfKept(words: seq<string>)
    requires forall i :: 0 <= i < |words| ==> !IsLanguageKeyword(words[i])
    ensures BaseWords(words) == words
  {
    if words != [] {
      BaseWordsOfKept(words[1..]);
    }
  }
}
