/** The highlighting of search hits (src/components/search.tsx): the query
    is cut into terms, each term becomes a case-insensitive pattern, the
    text is optionally filtered to the items every term matches, and the
    text is cut into the pieces between matches and the matches themselves.

    Every character of a term outside `[ a-zA-Z0-9]` is escaped, so a term
    that compiles is a literal: matching it is case-insensitive occurrence
    of its unescaped text, and no regular-expression engine is needed. */
module Search {
  import opened Strings

  // ---------------------------------------------------------------------
  // Stop words (search.tsx:25): `/ ?\b(w1|w2|...)\b ?/gi` replaced by " "

  /** The stop words are non-empty words of lower-case word characters, as
      the set at src/components/table.tsx:23 is. */
  predicate StopWordsOk(stop: set<string>) {
    && stop != {}
    && forall w :: w in stop ==> w != [] && forall i :: 0 <= i < |w| ==> IsWordChar(w[i]) && !IsAsciiUpper(w[i])
  }

  const TableStopWords: set<string> := {"and", "or", "to", "in", "a", "the"}

  /** The set the table pages pass meets the assumption of this model. */
  lemma TableStopWordsOk()
    ensures StopWordsOk(TableStopWords)
  {
    forall w | w in TableStopWords
      ensures forall i :: 0 <= i < |w| ==> IsWordChar(w[i]) && !IsAsciiUpper(w[i])
    {
      assert w == "and" || w == "or" || w == "to" || w == "in" || w == "a" || w == "the";
    }
  }

  /** The end of the match of `\b(stop)\b ?` at `q`: a whole word (a maximal
      run of word characters) equal to a stop word ignoring case, and the
      space after it if there is one. */
  function StopWordEnd(s: string, stop: set<string>, q: nat): (r: Option<nat>)
    ensures r.Some? ==> q < r.value <= |s|
    ensures r.Some? ==>
      && q < |s| && IsWordChar(s[q]) && (q == 0 || !IsWordChar(s[q - 1]))
      && LowerAscii(s[q..q + WordRun(s[q..])]) in stop
  {
    if q < |s| && IsWordChar(s[q]) && (q == 0 || !IsWordChar(s[q - 1]))
       && LowerAscii(s[q..q + WordRun(s[q..])]) in stop
    then
      var e := q + WordRun(s[q..]);
      Some(if e < |s| && s[e] == ' ' then e + 1 else e)
    else None
  }

  /** A stop word matches at `q` exactly when a whole word starts there and
      equals a stop word ignoring case; the match ends after the word, and
      after the space that follows it if there is one. */
  lemma StopWordEndIff(s: string, stop: set<string>, q: nat)
    ensures StopWordEnd(s, stop, q).Some? <==>
      && q < |s| && IsWordChar(s[q]) && (q == 0 || !IsWordChar(s[q - 1]))
      && LowerAscii(s[q..q + WordRun(s[q..])]) in stop
    ensures StopWordEnd(s, stop, q).Some? ==> var e := q + WordRun(s[q..]);
      && (e < |s| && s[e] == ' ' ==> StopWordEnd(s, stop, q).value == e + 1)
      && (e == |s| || s[e] != ' ' ==> StopWordEnd(s, stop, q).value == e)
  {
  }

  /** The end of the match of ` ?\b(stop)\b ?` at `p`: the greedy optional
      space is tried first, then the match without it. */
  function StopMatchAt(s: string, stop: set<string>, p: nat): (r: Option<nat>)
    ensures r.Some? ==> p < r.value <= |s|
  {
    if p < |s| && s[p] == ' ' && StopWordEnd(s, stop, p + 1).Some? then StopWordEnd(s, stop, p + 1)
    else StopWordEnd(s, stop, p)
  }

  /** The global replace from position `p` on. */
  function RemoveStopWordsFrom(s: string, stop: set<string>, p: nat): (r: string)
    decreases |s| - p
  {
    if p >= |s| then []
    else
      match StopMatchAt(s, stop, p)
      case Some(e) => " " + RemoveStopWordsFrom(s, stop, e)
      case None => [s[p]] + RemoveStopWordsFrom(s, stop, p + 1)
  }

  function RemoveStopWords(s: string, stop: set<string>): string {
    RemoveStopWordsFrom(s, stop, 0)
  }

  /** The replace never lengthens the query. */
  lemma {:induction false} RemoveStopWordsLength(s: string, stop: set<string>, p: nat)
    requires p <= |s|
    ensures |RemoveStopWordsFrom(s, stop, p)| <= |s| - p
    decreases |s| - p
  {
    if p < |s| {
      var next := match StopMatchAt(s, stop, p) case Some(e) => e case None => p + 1;
      assert |RemoveStopWordsFrom(s, stop, p)| == 1 + |RemoveStopWordsFrom(s, stop, next)|;
      RemoveStopWordsLength(s, stop, next);
    }
  }

  /** Every character the replace keeps comes from the query or is a space. */
  lemma {:induction false} RemoveStopWordsChars(s: string, stop: set<string>, p: nat)
    requires p <= |s|
    ensures forall i :: 0 <= i < |RemoveStopWordsFrom(s, stop, p)| ==>
      RemoveStopWordsFrom(s, stop, p)[i] == ' ' || RemoveStopWordsFrom(s, stop, p)[i] in s[p..]
    decreases |s| - p
  {
    if p < |s| {
      var r := RemoveStopWordsFrom(s, stop, p);
      var next := match StopMatchAt(s, stop, p) case Some(e) => e case None => p + 1;
      var tail := RemoveStopWordsFrom(s, stop, next);
      assert r[1..] == tail;
      assert r[0] == ' ' || r[0] == s[p];
      RemoveStopWordsChars(s, stop, next);
      forall i | 1 <= i < |r| ensures r[i] == ' ' || r[i] in s[p..] {
        var c := tail[i - 1];
        if c != ' ' {
          var k :| 0 <= k < |s[next..]| && s[next..][k] == c;
          assert s[p..][next - p + k] == c;
        }
      }
    }
  }

  /** A query in which no stop word matches is kept as it is. */
  lemma {:induction false} RemoveStopWordsNone(s: string, stop: set<string>, p: nat)
    requires p <= |s|
    requires forall q :: p <= q < |s| ==> StopMatchAt(s, stop, q).None?
    ensures RemoveStopWordsFrom(s, stop, p) == s[p..]
    decreases |s| - p
  {
    if p < |s| {
      RemoveStopWordsNone(s, stop, p + 1);
      assert s[p..] == [s[p]] + s[p + 1..];
    }
  }

  // ---------------------------------------------------------------------
  // The words of a query, and the stop words removed from them

  /** The words of `s`: its maximal runs of word characters, in order. */
  function Words(s: string): seq<string>
    decreases |s|
  {
    if s == [] then []
    else if !IsWordChar(s[0]) then Words(s[1..])
    else
      var n := WordRun(s);
      [s[..n]] + Words(s[n..])
  }

  /** The words that are not stop words ignoring case, in their order. */
  function KeepWords(words: seq<string>, stop: set<string>): seq<string> {
    if words == [] then []
    else (if LowerAscii(words[0]) in stop then [] else [words[0]]) + KeepWords(words[1..], stop)
  }

  /** The kept words are exactly the words that are not stop words. */
  lemma {:induction false} KeepWordsMembers(words: seq<string>, stop: set<string>)
    ensures forall w :: w in KeepWords(words, stop) <==> w in words && LowerAscii(w) !in stop
  {
    if words != [] {
      KeepWordsMembers(words[1..], stop);
      assert words == [words[0]] + words[1..];
    }
  }

  lemma KeepWordsCons(w: string, ws: seq<string>, stop: set<string>)
    ensures KeepWords([w] + ws, stop) == (if LowerAscii(w) in stop then [] else [w]) + KeepWords(ws, stop)
  {
    assert ([w] + ws)[1..] == ws;
  }

  lemma WordsSkip(c: char, t: string)
    requires !IsWordChar(c)
    ensures Words([c] + t) == Words(t)
  {
    assert ([c] + t)[1..] == t;
  }

  lemma WordsCons(w: string, t: string)
    requires w != [] && forall i :: 0 <= i < |w| ==> IsWordChar(w[i])
    requires t == [] || !IsWordChar(t[0])
    ensures Words(w + t) == [w] + Words(t)
  {
    WordRunAppend(w, t);
    assert (w + t)[..|w|] == w && (w + t)[|w|..] == t;
  }

  /** The words of `s` from a character that is not a word character. */
  lemma WordsAt(s: string, p: nat)
    requires p < |s| && !IsWordChar(s[p])
    ensures Words(s[p..]) == Words(s[p + 1..])
  {
    assert s[p..][1..] == s[p + 1..];
  }

  /** The words of `s` from the start of a word. */
  lemma WordsAtWord(s: string, p: nat, e: nat)
    requires p < |s| && IsWordChar(s[p]) && e == p + WordRun(s[p..])
    ensures p < e && Words(s[p..]) == [s[p..e]] + Words(s[e..])
  {
    var t := s[p..];
    var n := WordRun(t);
    assert t[..n] == s[p..e] && t[n..] == s[e..];
  }

  /** `p` is not strictly inside a word of `s`. */
  predicate Boundary(s: string, p: nat) {
    p == 0 || p >= |s| || !IsWordChar(s[p - 1]) || !IsWordChar(s[p])
  }

  /** The output at a character that is not a word character starts with one
      that is not either. */
  lemma FirstNotWord(s: string, stop: set<string>, p: nat)
    requires p < |s| && !IsWordChar(s[p])
    ensures RemoveStopWordsFrom(s, stop, p) != [] && !IsWordChar(RemoveStopWordsFrom(s, stop, p)[0])
  {
  }

  /** One step of the replace. */
  lemma RemoveStep(s: string, stop: set<string>, p: nat)
    requires p < |s|
    ensures StopMatchAt(s, stop, p).None? ==>
      RemoveStopWordsFrom(s, stop, p) == [s[p]] + RemoveStopWordsFrom(s, stop, p + 1)
    ensures StopMatchAt(s, stop, p).Some? ==>
      RemoveStopWordsFrom(s, stop, p) == " " + RemoveStopWordsFrom(s, stop, StopMatchAt(s, stop, p).value)
  {
  }

  /** Nothing matches strictly inside a word. */
  lemma NoMatchInside(s: string, stop: set<string>, q: nat)
    requires 0 < q < |s| && IsWordChar(s[q - 1]) && IsWordChar(s[q])
    ensures StopMatchAt(s, stop, q).None?
  {
    assert StopWordEnd(s, stop, q).None?;
  }

  /** Inside a word nothing matches, so the rest of the word is copied. */
  lemma {:induction false} CopyRun(s: string, stop: set<string>, q: nat, e: nat)
    requires 0 < q <= e <= |s|
    requires forall i :: q - 1 <= i < e ==> IsWordChar(s[i])
    ensures RemoveStopWordsFrom(s, stop, q) == s[q..e] + RemoveStopWordsFrom(s, stop, e)
    decreases e - q
  {
    if q < e {
      var tail := RemoveStopWordsFrom(s, stop, e);
      var next := RemoveStopWordsFrom(s, stop, q + 1);
      assert RemoveStopWordsFrom(s, stop, q) == [s[q]] + next by {
        NoMatchInside(s, stop, q);
        RemoveStep(s, stop, q);
      }
      assert next == s[q + 1..e] + tail by {
        CopyRun(s, stop, q + 1, e);
      }
      Regroup(RemoveStopWordsFrom(s, stop, q), [s[q]], next, s[q + 1..e], tail);
      assert s[q..e] == [s[q]] + s[q + 1..e];
    }
  }

  /** A stop word matched at `q` is a word dropped from the words of the rest. */
  lemma StopWordSkipped(s: string, stop: set<string>, q: nat, e: nat)
    requires StopWordEnd(s, stop, q) == Some(e)
    ensures Boundary(s, e)
    ensures KeepWords(Words(s[q..]), stop) == KeepWords(Words(s[e..]), stop)
  {
    var end := q + WordRun(s[q..]);
    assert IsWordChar(s[q]) && LowerAscii(s[q..end]) in stop;
    WordsAtWord(s, q, end);
    KeepWordsCons(s[q..end], Words(s[end..]), stop);
    if e == end + 1 {
      assert s[end] == ' ';
      WordsAt(s, end);
    }
  }

  /** A word that is not a stop word is copied whole. */
  lemma KeptWordCopied(s: string, stop: set<string>, p: nat, e: nat)
    requires p < |s| && IsWordChar(s[p]) && e == p + WordRun(s[p..])
    requires StopWordEnd(s, stop, p).None?
    ensures RemoveStopWordsFrom(s, stop, p) == s[p..e] + RemoveStopWordsFrom(s, stop, e)
  {
    var tail := RemoveStopWordsFrom(s, stop, e);
    var next := RemoveStopWordsFrom(s, stop, p + 1);
    assert RemoveStopWordsFrom(s, stop, p) == [s[p]] + next by {
      assert s[p] != ' ';
      RemoveStep(s, stop, p);
    }
    assert next == s[p + 1..e] + tail by {
      if p + 1 < e {
        forall i | p <= i < e
          ensures IsWordChar(s[i])
        {
          assert s[i] == s[p..][i - p];
        }
        CopyRun(s, stop, p + 1, e);
      }
    }
    Regroup(RemoveStopWordsFrom(s, stop, p), [s[p]], next, s[p + 1..e], tail);
    assert s[p..e] == [s[p]] + s[p + 1..e];
  }

  lemma WordEndBoundary(s: string, p: nat)
    requires p <= |s|
    ensures p + WordRun(s[p..]) <= |s| && Boundary(s, p + WordRun(s[p..]))
  {
    var e := p + WordRun(s[p..]);
    if e < |s| {
      assert s[e] == s[p..][e - p];
    }
  }

  /** The induction step at a stop word matched at `q`, after the space at
      `p` or at `p` itself. */
  lemma StopCase(s: string, stop: set<string>, p: nat, q: nat, e: nat)
    requires p < |s| && (q == p || (q == p + 1 && s[p] == ' ' && !IsWordChar(s[p])))
    requires StopWordEnd(s, stop, q) == Some(e) && StopMatchAt(s, stop, p) == Some(e)
    requires Words(RemoveStopWordsFrom(s, stop, e)) == KeepWords(Words(s[e..]), stop)
    ensures Words(RemoveStopWordsFrom(s, stop, p)) == KeepWords(Words(s[p..]), stop)
  {
    var tail := RemoveStopWordsFrom(s, stop, e);
    assert RemoveStopWordsFrom(s, stop, p) == " " + tail by {
      RemoveStep(s, stop, p);
    }
    assert Words(" " + tail) == Words(tail) by {
      WordsSkip(' ', tail);
    }
    assert KeepWords(Words(s[q..]), stop) == KeepWords(Words(s[e..]), stop) by {
      StopWordSkipped(s, stop, q, e);
    }
    assert Words(s[p..]) == Words(s[q..]) by {
      if q == p + 1 {
        WordsAt(s, p);
      }
    }
  }

  /** A word that is not a stop word leads the words of the output. */
  lemma KeptWordLeads(s: string, stop: set<string>, p: nat, e: nat)
    requires p < |s| && IsWordChar(s[p]) && e == p + WordRun(s[p..])
    requires StopWordEnd(s, stop, p).None?
    ensures Words(RemoveStopWordsFrom(s, stop, p)) == [s[p..e]] + Words(RemoveStopWordsFrom(s, stop, e))
  {
    var w := s[p..e];
    var tail := RemoveStopWordsFrom(s, stop, e);
    assert RemoveStopWordsFrom(s, stop, p) == w + tail by {
      KeptWordCopied(s, stop, p, e);
    }
    if e < |s| {
      assert s[e] == s[p..][e - p];
      FirstNotWord(s, stop, e);
    }
    forall i | 0 <= i < |w|
      ensures IsWordChar(w[i])
    {
      assert w[i] == s[p..][i];
    }
    WordsCons(w, tail);
  }

  /** A word that is not a stop word leads the kept words. */
  lemma KeptWordKept(s: string, stop: set<string>, p: nat, e: nat)
    requires p < |s| && IsWordChar(s[p]) && Boundary(s, p) && e == p + WordRun(s[p..])
    requires StopWordEnd(s, stop, p).None?
    ensures KeepWords(Words(s[p..]), stop) == [s[p..e]] + KeepWords(Words(s[e..]), stop)
  {
    WordsAtWord(s, p, e);
    StopWordEndIff(s, stop, p);
    assert LowerAscii(s[p..e]) !in stop;
    KeepWordsCons(s[p..e], Words(s[e..]), stop);
  }

  /** The induction step at a word that is not a stop word. */
  lemma KeptCase(s: string, stop: set<string>, p: nat, e: nat)
    requires p < |s| && IsWordChar(s[p]) && Boundary(s, p) && e == p + WordRun(s[p..])
    requires StopWordEnd(s, stop, p).None?
    requires Words(RemoveStopWordsFrom(s, stop, e)) == KeepWords(Words(s[e..]), stop)
    ensures Words(RemoveStopWordsFrom(s, stop, p)) == KeepWords(Words(s[p..]), stop)
  {
    KeptWordLeads(s, stop, p, e);
    KeptWordKept(s, stop, p, e);
  }

  /** The induction step at a character that is copied and is not part of a word. */
  lemma CopiedCase(s: string, stop: set<string>, p: nat)
    requires p < |s| && !IsWordChar(s[p]) && StopMatchAt(s, stop, p).None?
    requires Words(RemoveStopWordsFrom(s, stop, p + 1)) == KeepWords(Words(s[p + 1..]), stop)
    ensures Words(RemoveStopWordsFrom(s, stop, p)) == KeepWords(Words(s[p..]), stop)
  {
    RemoveStep(s, stop, p);
    WordsAt(s, p);
    WordsSkip(s[p], RemoveStopWordsFrom(s, stop, p + 1));
  }

  /** The words left by the replace from `p` on are the kept words of `s[p..]`. */
  ghost predicate WordsKeptFrom(s: string, stop: set<string>, p: nat) {
    p <= |s| && Words(RemoveStopWordsFrom(s, stop, p)) == KeepWords(Words(s[p..]), stop)
  }

  /** A stop word matched at `p` resumes at a word boundary. */
  lemma StopBranch(s: string, stop: set<string>, p: nat)
    requires p < |s| && StopMatchAt(s, stop, p).Some?
    ensures var e := StopMatchAt(s, stop, p).value;
      p < e <= |s| && Boundary(s, e) && (WordsKeptFrom(s, stop, e) ==> WordsKeptFrom(s, stop, p))
  {
    var e := StopMatchAt(s, stop, p).value;
    var q := if s[p] == ' ' && StopWordEnd(s, stop, p + 1).Some? then p + 1 else p;
    StopWordSkipped(s, stop, q, e);
    if WordsKeptFrom(s, stop, e) {
      StopCase(s, stop, p, q, e);
    }
  }

  /** A kept word at `p` is followed by a word boundary. */
  lemma KeptBranch(s: string, stop: set<string>, p: nat)
    requires p < |s| && IsWordChar(s[p]) && StopMatchAt(s, stop, p).None?
    ensures var e := p + WordRun(s[p..]);
      p < e <= |s| && Boundary(s, e) && StopWordEnd(s, stop, p).None?
  {
    WordEndBoundary(s, p);
    assert s[p] != ' ';
    assert s[p..][0] == s[p];
  }

  lemma {:induction false} RemoveStopWordsWordsFrom(s: string, stop: set<string>, p: nat)
    requires p <= |s| && Boundary(s, p)
    ensures WordsKeptFrom(s, stop, p)
    decreases |s| - p
  {
    if p == |s| {
      assert s[p..] == [];
    } else if StopMatchAt(s, stop, p).Some? {
      StopBranch(s, stop, p);
      RemoveStopWordsWordsFrom(s, stop, StopMatchAt(s, stop, p).value);
    } else if IsWordChar(s[p]) {
      var e := p + WordRun(s[p..]);
      KeptBranch(s, stop, p);
      RemoveStopWordsWordsFrom(s, stop, e);
      KeptCase(s, stop, p, e);
    } else {
      RemoveStopWordsWordsFrom(s, stop, p + 1);
      CopiedCase(s, stop, p);
    }
  }

  /** Removing stop words removes exactly the words equal to a stop word
      ignoring case, and keeps every other word, in order: a removed word
      leaves a space, so its neighbours never run together. */
  lemma RemoveStopWordsWords(s: string, stop: set<string>)
    ensures Words(RemoveStopWords(s, stop)) == KeepWords(Words(s), stop)
  {
    RemoveStopWordsWordsFrom(s, stop, 0);
    assert s[0..] == s;
  }

  // ---------------------------------------------------------------------
  // Escaping (search.tsx:26) and the pattern a term compiles to

  /** The characters `/[^ a-z0-9]/gi` leaves alone. */
  predicate Unescaped(c: char) { c == ' ' || IsDigit(c) || IsAsciiLower(c) || IsAsciiUpper(c) }

  /** `replace(/([^ a-z0-9])/gi, "\\$1")`: a backslash before every other character. */
  function Escape(s: string): (r: string)
    ensures |r| >= |s|
    ensures (forall i :: 0 <= i < |s| ==> s[i] != ' ') ==> forall i :: 0 <= i < |r| ==> r[i] != ' '
  {
    if s == [] then []
    else (if Unescaped(s[0]) then [s[0]] else ['\\', s[0]]) + Escape(s[1..])
  }

  /** The text a term matches, or `None` when `new RegExp(term)` throws: a
      backslash is an identity escape of the next character, and a
      backslash at the very end is a syntax error. */
  function Unescape(t: string): (r: Option<string>)
    ensures r.Some? && t != [] ==> r.value != []
  {
    if t == [] then Some([])
    else if t[0] == '\\' then
      if |t| == 1 then None
      else match Unescape(t[2..]) { case None => None case Some(u) => Some([t[1]] + u) }
    else match Unescape(t[1..]) { case None => None case Some(u) => Some([t[0]] + u) }
  }

  /** An escaped string compiles, and to a pattern matching exactly itself. */
  lemma {:induction false} UnescapeEscape(s: string)
    ensures Unescape(Escape(s)) == Some(s)
  {
    if s != [] {
      UnescapeEscape(s[1..]);
      var e := Escape(s);
      if Unescaped(s[0]) {
        assert e[1..] == Escape(s[1..]);
      } else {
        assert e[0] == '\\' && e[1] == s[0];
        assert e[2..] == Escape(s[1..]);
      }
      assert [s[0]] + s[1..] == s;
    }
  }

  // ---------------------------------------------------------------------
  // Terms (search.tsx:23-30)

  /** `.filter(Boolean)` on strings: drops the empty ones. */
  function DropEmpty(pieces: seq<string>): (r: seq<string>)
    ensures forall x :: x in r <==> x in pieces && x != []
    ensures |r| <= |pieces|
  {
    if pieces == [] then []
    else
      assert pieces == [pieces[0]] + pieces[1..];
      (if pieces[0] == [] then [] else [pieces[0]]) + DropEmpty(pieces[1..])
  }

  /** `filter` keeps its input's order: it distributes over concatenation,
      and keeps a single piece exactly when it is not empty. */
  lemma {:induction false} DropEmptyOrder(a: seq<string>, b: seq<string>, x: string)
    ensures DropEmpty(a + b) == DropEmpty(a) + DropEmpty(b)
    ensures DropEmpty([x]) == if x == [] then [] else [x]
  {
    assert [x][1..] == [];
    if a == [] {
      assert a + b == b;
    } else {
      assert (a + b)[0] == a[0] && (a + b)[1..] == a[1..] + b;
      var h := (if a[0] == [] then [] else [a[0]]);
      DropEmptyOrder(a[1..], b, x);
      assert DropEmpty(a + b) == h + DropEmpty((a[1..] + b));
      assert DropEmpty(a) == h + DropEmpty(a[1..]);
      Regroup(DropEmpty(a + b), h, DropEmpty((a[1..] + b)), DropEmpty(a[1..]), DropEmpty(b));
    }
  }

  /** `getSearchTerms`. */
  function SearchTerms(search: string, stop: set<string>): (r: seq<string>)
    ensures |search| <= 1 ==> r == []
    ensures forall t :: t in r ==> t != []
  {
    var s := if |search| > 1 then search else "";
    DropEmpty(Split(Trim(Escape(RemoveStopWords(s, stop))), " "))
  }

  /** No piece of a split on " " contains a space. */
  lemma PiecesHaveNoSpace(text: string)
    ensures forall k, j :: 0 <= k < |Split(text, " ")| && 0 <= j < |Split(text, " ")[k]| ==> Split(text, " ")[k][j] != ' '
  {
    var pieces := Split(text, " ");
    forall k, j | 0 <= k < |pieces| && 0 <= j < |pieces[k]|
      ensures pieces[k][j] != ' '
    {
      SplitOnPiecesFree(text, " ", k, j);
      assert pieces[k][j..j + 1] == [pieces[k][j]];
    }
  }

  /** No term contains a space. */
  lemma TermsHaveNoSpace(search: string, stop: set<string>)
    ensures forall t, j :: t in SearchTerms(search, stop) && 0 <= j < |t| ==> t[j] != ' '
  {
    var s := if |search| > 1 then search else "";
    var text := Trim(Escape(RemoveStopWords(s, stop)));
    var pieces := Split(text, " ");
    assert SearchTerms(search, stop) == DropEmpty(pieces);
    PiecesHaveNoSpace(text);
    forall t, j | t in DropEmpty(pieces) && 0 <= j < |t| ensures t[j] != ' ' {
      var k :| 0 <= k < |pieces| && pieces[k] == t;
    }
  }

  /** A string made of the tokens `Escape` writes: a character of
      `[ a-zA-Z0-9]`, or a backslash before any other character. */
  predicate IsEscaped(t: string)
    decreases |t|
  {
    if t == [] then true
    else if Unescaped(t[0]) then IsEscaped(t[1..])
    else |t| >= 2 && t[0] == '\\' && !Unescaped(t[1]) && IsEscaped(t[2..])
  }

  /** Escaped text, or escaped text followed by the backslash of a token
      whose second character was cut off. */
  predicate EscapedOrCut(t: string) {
    IsEscaped(t) || (t != [] && t[|t| - 1] == '\\' && IsEscaped(t[..|t| - 1]))
  }

  predicate Token(h: string) {
    (|h| == 1 && Unescaped(h[0])) || (|h| == 2 && h[0] == '\\' && !Unescaped(h[1]))
  }

  lemma {:induction false} EscapeIsEscaped(u: string)
    ensures IsEscaped(Escape(u))
  {
    if u != [] {
      EscapeIsEscaped(u[1..]);
      var e := Escape(u);
      if Unescaped(u[0]) { assert e[1..] == Escape(u[1..]); } else { assert e[2..] == Escape(u[1..]); }
    }
  }

  /** Escaped text is the escape of the text its pattern matches. */
  lemma {:induction false} EscapedText(t: string)
    requires IsEscaped(t)
    ensures Unescape(t).Some? && Escape(Unescape(t).value) == t
  {
    if t != [] {
      if Unescaped(t[0]) {
        EscapedText(t[1..]);
        var u := Unescape(t[1..]).value;
        assert ([t[0]] + u)[1..] == u;
        assert [t[0]] + t[1..] == t;
      } else {
        EscapedText(t[2..]);
        var u := Unescape(t[2..]).value;
        assert ([t[1]] + u)[1..] == u;
        assert ['\\', t[1]] + t[2..] == t;
      }
    }
  }

  lemma ConsEscaped(h: string, p: string)
    requires Token(h) && IsEscaped(p)
    ensures IsEscaped(h + p)
  {
    if |h| == 1 { assert (h + p)[1..] == p; } else { assert (h + p)[2..] == p; }
  }

  lemma ConsEscapedOrCut(h: string, p: string)
    requires Token(h) && EscapedOrCut(p)
    ensures EscapedOrCut(h + p)
  {
    if IsEscaped(p) {
      ConsEscaped(h, p);
    } else {
      ConsEscaped(h, p[..|p| - 1]);
      assert (h + p)[..|h + p| - 1] == h + p[..|p| - 1];
    }
  }

  /** Every prefix of escaped text is escaped text, possibly cut inside its
      last token. */
  lemma {:induction false} EscapedPrefix(t: string, n: nat)
    requires IsEscaped(t) && n <= |t|
    ensures EscapedOrCut(t[..n])
  {
    if n == 0 {
      assert t[..0] == [];
    } else if Unescaped(t[0]) {
      EscapedPrefix(t[1..], n - 1);
      assert t[..n] == t[..1] + t[1..][..n - 1];
      ConsEscapedOrCut(t[..1], t[1..][..n - 1]);
    } else if n == 1 {
      assert t[..1][..0] == [];
    } else {
      EscapedPrefix(t[2..], n - 2);
      assert t[..n] == t[..2] + t[2..][..n - 2];
      ConsEscapedOrCut(t[..2], t[2..][..n - 2]);
    }
  }

  /** Leading white space of escaped text is made of whole space tokens. */
  lemma {:induction false} EscapedLeading(t: string, a: nat)
    requires IsEscaped(t) && a <= |t| && forall i :: 0 <= i < a ==> IsJsSpace(t[i])
    ensures IsEscaped(t[a..])
  {
    if a > 0 {
      assert IsJsSpace(t[0]) && !IsJsSpace('\\');
      EscapedLeading(t[1..], a - 1);
      assert t[1..][a - 1..] == t[a..];
    }
  }

  /** Trimming escaped text leaves escaped text, or escaped text cut inside
      its last token. */
  lemma TrimmedEscaped(s: string)
    requires IsEscaped(s)
    ensures EscapedOrCut(Trim(s))
  {
    var a := LeadingSpaces(s);
    var r := Trim(s);
    EscapedLeading(s, a);
    EscapedPrefix(s[a..], |r|);
    assert s[a..][..|r|] == r;
  }

  /** A space in escaped text is a token of its own: both sides are escaped. */
  lemma {:induction false} EscapedSpaceCut(t: string, i: nat)
    requires IsEscaped(t) && i < |t| && t[i] == ' '
    ensures IsEscaped(t[..i]) && IsEscaped(t[i + 1..])
  {
    if i == 0 {
      assert t[..0] == [];
    } else if Unescaped(t[0]) {
      EscapedSpaceCut(t[1..], i - 1);
      assert t[..i] == t[..1] + t[1..][..i - 1];
      ConsEscaped(t[..1], t[1..][..i - 1]);
      assert t[1..][i..] == t[i + 1..];
    } else {
      assert t[1] != ' ';
      EscapedSpaceCut(t[2..], i - 2);
      assert t[..i] == t[..2] + t[2..][..i - 2];
      ConsEscaped(t[..2], t[2..][..i - 2]);
      assert t[2..][i - 1..] == t[i + 1..];
    }
  }

  lemma CutSpaceCut(t: string, i: nat)
    requires EscapedOrCut(t) && i < |t| && t[i] == ' '
    ensures IsEscaped(t[..i]) && EscapedOrCut(t[i + 1..])
  {
    if IsEscaped(t) {
      EscapedSpaceCut(t, i);
    } else {
      var e := t[..|t| - 1];
      EscapedSpaceCut(e, i);
      assert t[..i] == e[..i];
      var rest := t[i + 1..];
      assert rest[|rest| - 1] == '\\' && rest[..|rest| - 1] == e[i + 1..];
    }
  }

  /** Every piece of escaped (possibly cut) text split on " " is escaped
      text, possibly cut. */
  lemma {:induction false} SplitEscapedOrCut(t: string, k: nat)
    requires EscapedOrCut(t) && k < |SplitOn(t, " ")|
    ensures EscapedOrCut(SplitOn(t, " ")[k])
    decreases |t|
  {
    match IndexOf(t, " ", 0)
    case None =>
    case Some(i) =>
      assert t[i..i + 1] == " ";
      CutSpaceCut(t, i);
      if k > 0 {
        SplitEscapedOrCut(t[i + 1..], k - 1);
      }
  }

  lemma PiecesEscapedOrCut(text: string)
    requires EscapedOrCut(text)
    ensures forall k :: 0 <= k < |Split(text, " ")| ==> EscapedOrCut(Split(text, " ")[k])
  {
    forall k | 0 <= k < |SplitOn(text, " ")| ensures EscapedOrCut(SplitOn(text, " ")[k]) {
      SplitEscapedOrCut(text, k);
    }
  }

  lemma CutWitness(t: string)
    requires EscapedOrCut(t)
    ensures exists u :: t == Escape(u) || t == Escape(u) + "\\"
  {
    if IsEscaped(t) {
      EscapedText(t);
    } else {
      var p := t[..|t| - 1];
      EscapedText(p);
      assert t == p + "\\";
    }
  }

  /** Every term is escaped text, possibly cut inside its last token. */
  lemma TermsEscapedOrCut(search: string, stop: set<string>)
    ensures forall t :: t in SearchTerms(search, stop) ==> EscapedOrCut(t)
  {
    var s := if |search| > 1 then search else "";
    var text := Trim(Escape(RemoveStopWords(s, stop)));
    var pieces := Split(text, " ");
    assert SearchTerms(search, stop) == DropEmpty(pieces);
    EscapeIsEscaped(RemoveStopWords(s, stop));
    TrimmedEscaped(Escape(RemoveStopWords(s, stop)));
    PiecesEscapedOrCut(text);
  }

  /** Every term is the escape of some text, or that escape followed by a
      lone backslash: what is left when `trim` cuts off the white space the
      last backslash escaped. */
  lemma TermEscape(search: string, stop: set<string>, t: string)
    requires t in SearchTerms(search, stop)
    ensures exists u :: t == Escape(u) || t == Escape(u) + "\\"
  {
    TermsEscapedOrCut(search, stop);
    CutWitness(t);
  }

  const SyntaxError := "SyntaxError: Invalid regular expression: \\ at end of pattern"

  /** `getRegexesFromTerms`: the texts the terms match, or the error the
      first term that does not compile throws. */
  function Literals(terms: seq<string>): (r: Result<seq<string>>)
    ensures r.Ok? <==> forall k :: 0 <= k < |terms| ==> Unescape(terms[k]).Some?
    ensures r.Ok? ==> |r.value| == |terms| && forall k :: 0 <= k < |terms| ==> Unescape(terms[k]) == Some(r.value[k])
    ensures r.Err? ==> r.error == SyntaxError
  {
    if terms == [] then Ok([])
    else
      match Unescape(terms[0])
      case None => Err(SyntaxError)
      case Some(u) =>
        match Literals(terms[1..])
        case Err(e) => Err(e)
        case Ok(us) =>
          assert forall k :: 1 <= k < |terms| ==> terms[k] == terms[1..][k - 1];
          Ok([u] + us)
  }

  // ---------------------------------------------------------------------
  // Matching literals case-insensitively

  predicate OccursAtIgnoringCase(s: string, lit: string, q: nat) {
    q + |lit| <= |s| && EqualIgnoringCase(s[q..q + |lit|], lit)
  }

  predicate AllNonEmpty(lits: seq<string>) { forall k :: 0 <= k < |lits| ==> lits[k] != [] }

  /** The alternative of `t1|t2|...` that matches at `q`, if any. */
  function FirstAlternative(s: string, lits: seq<string>, q: nat): (r: Option<nat>)
    ensures r.Some? ==> r.value < |lits| && q + |lits[r.value]| <= |s|
  {
    if lits == [] then None
    else if OccursAtIgnoringCase(s, lits[0], q) then Some(0)
    else match FirstAlternative(s, lits[1..], q) { case None => None case Some(k) => Some(k + 1) }
  }

  /** The alternative chosen is the first term that occurs at `q` ignoring
      case, and none is chosen only when no term occurs there. */
  lemma {:induction false} FirstAlternativeFirst(s: string, lits: seq<string>, q: nat)
    ensures var r := FirstAlternative(s, lits, q);
      && (r.Some? ==> r.value < |lits| && OccursAtIgnoringCase(s, lits[r.value], q))
      && (r.Some? ==> forall k :: 0 <= k < r.value ==> !OccursAtIgnoringCase(s, lits[k], q))
      && (r.None? ==> forall k :: 0 <= k < |lits| ==> !OccursAtIgnoringCase(s, lits[k], q))
  {
    if lits != [] && !OccursAtIgnoringCase(s, lits[0], q) {
      FirstAlternativeFirst(s, lits[1..], q);
      assert forall k :: 1 <= k < |lits| ==> lits[1..][k - 1] == lits[k];
    }
  }

  /** `s.match(regex)` with the `g` flag from position `q`: the leftmost
      matches, each search resuming where the last match ended. */
  function MatchesFrom(s: string, lits: seq<string>, q: nat): (r: seq<string>)
    requires AllNonEmpty(lits) && q <= |s|
    decreases |s| - q
  {
    if q == |s| then []
    else
      match FirstAlternative(s, lits, q)
      case None => MatchesFrom(s, lits, q + 1)
      case Some(k) => [s[q..q + |lits[k]|]] + MatchesFrom(s, lits, q + |lits[k]|)
  }

  /** `s.split(regex)`: the pieces between the same matches; `p` is where
      the current piece started. */
  function PiecesFrom(s: string, lits: seq<string>, p: nat, q: nat): (r: seq<string>)
    requires AllNonEmpty(lits) && p <= q <= |s|
    decreases |s| - q
  {
    if q == |s| then [s[p..]]
    else
      match FirstAlternative(s, lits, q)
      case None => PiecesFrom(s, lits, p, q + 1)
      case Some(k) => [s[p..q]] + PiecesFrom(s, lits, q + |lits[k]|, q + |lits[k]|)
  }

  /** `item.match(regex)` is truthy. */
  predicate Matches(s: string, lit: string) {
    lit != [] && MatchesFrom(s, [lit], 0) != []
  }

  lemma {:induction false} MatchesFromSome(s: string, lit: string, q: nat)
    requires lit != [] && q <= |s|
    ensures MatchesFrom(s, [lit], q) != [] <==> exists j :: q <= j && OccursAtIgnoringCase(s, lit, j)
    decreases |s| - q
  {
    if q < |s| {
      FirstAlternativeFirst(s, [lit], q);
      assert [lit][0] == lit;
      MatchesFromSome(s, lit, q + 1);
      if exists j :: q <= j && OccursAtIgnoringCase(s, lit, j) {
        var j :| q <= j && OccursAtIgnoringCase(s, lit, j);
        if j > q { assert exists j' :: q + 1 <= j' && OccursAtIgnoringCase(s, lit, j'); }
      }
    } else {
      assert forall j :: q <= j ==> !OccursAtIgnoringCase(s, lit, j);
    }
  }

  /** A term's pattern matches an item exactly when its text occurs in the
      item, ignoring case. */
  lemma MatchesIff(s: string, lit: string)
    requires lit != []
    ensures Matches(s, lit) <==> exists j :: 0 <= j && OccursAtIgnoringCase(s, lit, j)
  {
    MatchesFromSome(s, lit, 0);
  }

  lemma {:induction false} PiecesCount(s: string, lits: seq<string>, p: nat, q: nat)
    requires AllNonEmpty(lits) && p <= q <= |s|
    ensures |PiecesFrom(s, lits, p, q)| == |MatchesFrom(s, lits, q)| + 1
    decreases |s| - q
  {
    if q < |s| {
      match FirstAlternative(s, lits, q)
      case None =>
        NothingAt(s, lits, p, q);
        PiecesCount(s, lits, p, q + 1);
      case Some(k) =>
        PiecesAt(s, lits, p, q, k);
        MatchesAt(s, lits, q, k);
        PiecesCount(s, lits, q + |lits[k]|, q + |lits[k]|);
    }
  }

  /** Every match is one of the term texts, up to case. */
  lemma {:induction false} MatchesAreLiterals(s: string, lits: seq<string>, q: nat)
    requires AllNonEmpty(lits) && q <= |s|
    ensures forall m :: m in MatchesFrom(s, lits, q) ==> exists k :: 0 <= k < |lits| && EqualIgnoringCase(m, lits[k])
    decreases |s| - q
  {
    if q < |s| {
      match FirstAlternative(s, lits, q)
      case None => MatchesAreLiterals(s, lits, q + 1);
      case Some(k) =>
        FirstAlternativeFirst(s, lits, q);
        MatchesAreLiterals(s, lits, q + |lits[k]|);
    }
  }

  // ---------------------------------------------------------------------
  // Interleaving pieces and matches (search.tsx:48-58)

  /** `match[j] || ""`. */
  function MatchOr(matches: seq<string>, j: nat): string {
    if j < |matches| then matches[j] else []
  }

  function Rest(matches: seq<string>): seq<string> {
    if matches == [] then [] else matches[1..]
  }

  /** The pieces at even positions, the matches between them at odd ones. */
  function Interleave(pieces: seq<string>, matches: seq<string>): (r: seq<string>)
    ensures pieces == [] ==> r == []
    ensures pieces != [] ==> |r| == 2 * |pieces| - 1
  {
    if pieces == [] then []
    else if |pieces| == 1 then [pieces[0]]
    else [pieces[0], MatchOr(matches, 0)] + Interleave(pieces[1..], Rest(matches))
  }

  /** The `m`-th piece sits at position `2m`, the `m`-th match at `2m + 1`. */
  lemma {:induction false} InterleaveAt(pieces: seq<string>, matches: seq<string>, m: nat)
    requires m < |pieces|
    ensures 2 * m < |Interleave(pieces, matches)| && Interleave(pieces, matches)[2 * m] == pieces[m]
    ensures m + 1 < |pieces| ==> Interleave(pieces, matches)[2 * m + 1] == MatchOr(matches, m)
  {
    if m > 0 {
      InterleaveAt(pieces[1..], Rest(matches), m - 1);
      assert MatchOr(Rest(matches), m - 1) == MatchOr(matches, m);
    }
  }

  lemma InterleaveEq(parts: seq<string>, pieces: seq<string>, matches: seq<string>)
    requires pieces != [] && |parts| == 2 * |pieces| - 1
    requires forall m :: 0 <= m < |pieces| ==> parts[2 * m] == pieces[m]
    requires forall m :: 0 <= m < |pieces| - 1 ==> parts[2 * m + 1] == MatchOr(matches, m)
    ensures parts == Interleave(pieces, matches)
  {
    forall i | 0 <= i < |parts| ensures parts[i] == Interleave(pieces, matches)[i] {
      var m := i / 2;
      InterleaveAt(pieces, matches, m);
      if i != 2 * m { assert i == 2 * m + 1; }
    }
  }

  /** The `for` loop of `getPartionedItems`: `splice` inserts the `j`-th
      match before the piece at odd position `2j + 1`, and the loop stops
      once it has inserted one fewer than there are pieces. */
  method Partition(pieces: seq<string>, matches: seq<string>) returns (parts: seq<string>)
    ensures parts == Interleave(pieces, matches)
  {
    parts := pieces;
    if pieces == [] { return; }
    var i := 1;
    ghost var j := 0;
    while i < |parts|
      invariant i == 2 * j + 1 && |parts| == |pieces| + j && j <= |pieces| - 1
      invariant forall m :: 0 <= m < j ==> parts[2 * m] == pieces[m] && parts[2 * m + 1] == MatchOr(matches, m)
      invariant parts[2 * j..] == pieces[j..]
      decreases |pieces| - j
    {
      assert (i - 1) / 2 == j;
      var inserted := parts[..i] + [MatchOr(matches, (i - 1) / 2)] + parts[i..];
      assert inserted[2 * (j + 1)..] == parts[i..];
      assert parts[i..] == parts[2 * j..][1..];
      assert parts[2 * j] == pieces[j];
      parts := inserted;
      i := i + 2;
      j := j + 1;
    }
    assert parts[2 * j] == pieces[j];
    InterleaveEq(parts, pieces, matches);
  }

  function ConcatAll(parts: seq<string>): string {
    if parts == [] then [] else parts[0] + ConcatAll(parts[1..])
  }

  /** The items at odd positions. */
  function OddParts(parts: seq<string>): seq<string> {
    if |parts| < 2 then [] else [parts[1]] + OddParts(parts[2..])
  }

  lemma {:induction false} OddPartsOfInterleave(pieces: seq<string>, matches: seq<string>)
    requires pieces != [] && |matches| == |pieces| - 1
    ensures OddParts(Interleave(pieces, matches)) == matches
  {
    if |pieces| > 1 {
      OddPartsOfInterleave(pieces[1..], matches[1..]);
      var r := Interleave(pieces, matches);
      assert r[2..] == Interleave(pieces[1..], matches[1..]);
      assert matches == [matches[0]] + matches[1..];
    }
  }

  lemma ConcatAllCons2(a: string, b: string, rest: seq<string>)
    ensures ConcatAll([a, b] + rest) == a + b + ConcatAll(rest)
  {
    var l := [a, b] + rest;
    assert l[1..] == [b] + rest;
    assert ([b] + rest)[1..] == rest;
  }

  /** One match at `q`: the piece up to it, then what follows. */
  lemma PiecesAt(s: string, lits: seq<string>, p: nat, q: nat, k: nat)
    requires AllNonEmpty(lits) && p <= q < |s| && FirstAlternative(s, lits, q) == Some(k)
    ensures PiecesFrom(s, lits, p, q) == [s[p..q]] + PiecesFrom(s, lits, q + |lits[k]|, q + |lits[k]|)
  {
  }

  /** One match at `q`: the matched text, then what follows. */
  lemma MatchesAt(s: string, lits: seq<string>, q: nat, k: nat)
    requires AllNonEmpty(lits) && q < |s| && FirstAlternative(s, lits, q) == Some(k)
    ensures MatchesFrom(s, lits, q) == [s[q..q + |lits[k]|]] + MatchesFrom(s, lits, q + |lits[k]|)
  {
  }

  /** No match at `q`: the scan moves on by one character. */
  lemma NothingAt(s: string, lits: seq<string>, p: nat, q: nat)
    requires AllNonEmpty(lits) && p <= q < |s| && FirstAlternative(s, lits, q).None?
    ensures PiecesFrom(s, lits, p, q) == PiecesFrom(s, lits, p, q + 1)
    ensures MatchesFrom(s, lits, q) == MatchesFrom(s, lits, q + 1)
  {
  }

  /** Interleaving a further piece and match in front adds their text in front. */
  lemma ConcatInterleaveCons(piece: string, match_: string, ps: seq<string>, ms: seq<string>)
    requires ps != []
    ensures ConcatAll(Interleave([piece] + ps, [match_] + ms)) == piece + match_ + ConcatAll(Interleave(ps, ms))
  {
    var pieces := [piece] + ps;
    var matches := [match_] + ms;
    assert pieces[1..] == ps && Rest(matches) == ms && MatchOr(matches, 0) == match_;
    assert Interleave(pieces, matches) == [piece, match_] + Interleave(ps, ms);
    ConcatAllCons2(piece, match_, Interleave(ps, ms));
  }

  lemma ConcatInterleaveAt(s: string, lits: seq<string>, p: nat, q: nat, k: nat)
    requires AllNonEmpty(lits) && p <= q < |s| && FirstAlternative(s, lits, q) == Some(k)
    requires var e := q + |lits[k]|;
      ConcatAll(Interleave(PiecesFrom(s, lits, e, e), MatchesFrom(s, lits, e))) == s[e..]
    ensures ConcatAll(Interleave(PiecesFrom(s, lits, p, q), MatchesFrom(s, lits, q))) == s[p..]
  {
    var e := q + |lits[k]|;
    PiecesAt(s, lits, p, q, k);
    MatchesAt(s, lits, q, k);
    PiecesCount(s, lits, e, e);
    ConcatStep(s, p, q, e, PiecesFrom(s, lits, p, q), MatchesFrom(s, lits, q), PiecesFrom(s, lits, e, e), MatchesFrom(s, lits, e));
  }

  /** A piece `s[p..q]` and a match `s[q..e]` in front of parts that spell
      `s[e..]` spell `s[p..]`. */
  lemma ConcatStep(s: string, p: nat, q: nat, e: nat, pieces: seq<string>, matches: seq<string>, ps: seq<string>, ms: seq<string>)
    requires p <= q <= e <= |s| && ps != []
    requires pieces == [s[p..q]] + ps && matches == [s[q..e]] + ms
    requires ConcatAll(Interleave(ps, ms)) == s[e..]
    ensures ConcatAll(Interleave(pieces, matches)) == s[p..]
  {
    ConcatInterleaveCons(s[p..q], s[q..e], ps, ms);
    assert s[p..q] + s[q..e] + s[e..] == s[p..];
  }

  /** The pieces and the matches, interleaved, spell the text out again. */
  lemma {:induction false} ConcatInterleave(s: string, lits: seq<string>, p: nat, q: nat)
    requires AllNonEmpty(lits) && p <= q <= |s|
    ensures ConcatAll(Interleave(PiecesFrom(s, lits, p, q), MatchesFrom(s, lits, q))) == s[p..]
    decreases |s| - q
  {
    if q == |s| {
      assert PiecesFrom(s, lits, p, q) == [s[p..]];
      assert MatchesFrom(s, lits, q) == [];
    } else if FirstAlternative(s, lits, q).None? {
      NothingAt(s, lits, p, q);
      ConcatInterleave(s, lits, p, q + 1);
    } else {
      var k := FirstAlternative(s, lits, q).value;
      ConcatInterleave(s, lits, q + |lits[k]|, q + |lits[k]|);
      ConcatInterleaveAt(s, lits, p, q, k);
    }
  }

  /** What the parts of a highlighted text are: they spell the text, and the
      parts at odd positions are the matches, each one of the terms up to case. */
  lemma PartsSpellItems(items: string, lits: seq<string>)
    requires AllNonEmpty(lits) && MatchesFrom(items, lits, 0) != []
    ensures var parts := Interleave(PiecesFrom(items, lits, 0, 0), MatchesFrom(items, lits, 0));
      && ConcatAll(parts) == items
      && OddParts(parts) == MatchesFrom(items, lits, 0)
      && |parts| == 2 * |OddParts(parts)| + 1
      && forall m :: m in OddParts(parts) ==> exists k :: 0 <= k < |lits| && EqualIgnoringCase(m, lits[k])
  {
    PiecesCount(items, lits, 0, 0);
    ConcatInterleave(items, lits, 0, 0);
    MatchesAreLiterals(items, lits, 0);
    OddPartsOfInterleave(PiecesFrom(items, lits, 0, 0), MatchesFrom(items, lits, 0));
  }

  // ---------------------------------------------------------------------
  // The component (search.tsx:5-63)

  /** The `text` prop: `null`, one string, or a list of strings. */
  datatype TextInput = NoText | OneText(s: string) | TextList(items: seq<string>)

  /** What is rendered: the text as it is, or the parts, matches at odd positions. */
  datatype Rendered = PlainText(text: string) | Parts(parts: seq<string>)

  function TextPieces(text: TextInput, separator: string): seq<string> {
    match text
    case NoText => []
    case OneText(s) => Split(s, separator)
    case TextList(items) => items
  }

  predicate MatchedByAll(item: string, lits: seq<string>) {
    forall k :: 0 <= k < |lits| ==> Matches(item, lits[k])
  }

  function KeepMatching(items: seq<string>, filtered: bool, lits: seq<string>): (r: seq<string>)
    ensures !filtered ==> r == items
    ensures forall x :: x in r <==> x in items && (!filtered || MatchedByAll(x, lits))
  {
    if items == [] then []
    else
      assert items == [items[0]] + items[1..];
      (if !filtered || MatchedByAll(items[0], lits) then [items[0]] else []) + KeepMatching(items[1..], filtered, lits)
  }

  /** The filter keeps the items' order: it distributes over concatenation,
      and keeps a single item exactly when it is unfiltered or every term
      matches it. */
  lemma {:induction false} KeepMatchingOrder(a: seq<string>, b: seq<string>, x: string, filtered: bool, lits: seq<string>)
    ensures KeepMatching(a + b, filtered, lits) == KeepMatching(a, filtered, lits) + KeepMatching(b, filtered, lits)
    ensures KeepMatching([x], filtered, lits) == if !filtered || MatchedByAll(x, lits) then [x] else []
  {
    assert [x][1..] == [];
    if a == [] {
      assert a + b == b;
    } else {
      assert (a + b)[0] == a[0] && (a + b)[1..] == a[1..] + b;
      var h := (if !filtered || MatchedByAll(a[0], lits) then [a[0]] else []);
      KeepMatchingOrder(a[1..], b, x, filtered, lits);
      assert KeepMatching(a + b, filtered, lits) == h + KeepMatching((a[1..] + b), filtered, lits);
      assert KeepMatching(a, filtered, lits) == h + KeepMatching(a[1..], filtered, lits);
      Regroup(KeepMatching(a + b, filtered, lits), h, KeepMatching((a[1..] + b), filtered, lits), KeepMatching(a[1..], filtered, lits), KeepMatching(b, filtered, lits));
    }
  }

  /** `getTextItems`. */
  function TextItems(text: TextInput, filtered: bool, lits: seq<string>, separator: string): string {
    Join(KeepMatching(TextPieces(text, separator), filtered, lits), separator)
  }

  /** Unfiltered, a single text string comes back exactly as it was given. */
  lemma TextItemsUnfiltered(s: string, lits: seq<string>, separator: string)
    ensures TextItems(OneText(s), false, lits, separator) == s
  {
    SplitJoin(s, separator);
  }

  /** What `SearchResults` renders, or the error it throws. */
  function Render(text: TextInput, search: string, filtered: bool, separator: string, stop: set<string>): (r: Result<Rendered>)
  {
    match Literals(SearchTerms(search, stop))
    case Err(e) => Err(e)
    case Ok(lits) =>
      var items := TextItems(text, filtered, lits, separator);
      if lits == [] then Ok(PlainText(items))
      else
        LiteralsNonEmpty(search, stop);
        var ms := MatchesFrom(items, lits, 0);
        if ms == [] then Ok(PlainText(items))
        else Ok(Parts(Interleave(PiecesFrom(items, lits, 0, 0), ms)))
  }

  lemma LiteralsNonEmpty(search: string, stop: set<string>)
    requires Literals(SearchTerms(search, stop)).Ok?
    ensures AllNonEmpty(Literals(SearchTerms(search, stop)).value)
  {
    var terms := SearchTerms(search, stop);
    forall k | 0 <= k < |terms| ensures Literals(terms).value[k] != [] {
      assert terms[k] in terms;
    }
  }

  /** `SearchResults` itself, with the splice loop run for real. */
  method SearchResults(text: TextInput, search: string, filtered: bool, separator: string, stop: set<string>)
    returns (r: Result<Rendered>)
    ensures r == Render(text, search, filtered, separator, stop)
  {
    var terms := SearchTerms(search, stop);
    var compiled := Literals(terms);
    if compiled.Err? {
      return Err(compiled.error);
    }
    var lits := compiled.value;
    var items := TextItems(text, filtered, lits, separator);
    if lits == [] {
      return Ok(PlainText(items));
    }
    LiteralsNonEmpty(search, stop);
    var ms := MatchesFrom(items, lits, 0);
    if ms == [] {
      return Ok(PlainText(items));
    }
    var parts := Partition(PiecesFrom(items, lits, 0, 0), ms);
    r := Ok(Parts(parts));
  }

  /** Whatever is rendered spells out the text items: either as they are,
      or cut into pieces and matches; there are as many pieces as matches
      plus one, and every match is one of the terms up to case. */
  lemma RenderSpellsText(text: TextInput, search: string, filtered: bool, separator: string, stop: set<string>)
    requires Render(text, search, filtered, separator, stop).Ok?
    ensures var lits := Literals(SearchTerms(search, stop)).value;
      var items := TextItems(text, filtered, lits, separator);
      match Render(text, search, filtered, separator, stop).value
      case PlainText(t) => t == items
      case Parts(parts) =>
        && ConcatAll(parts) == items
        && OddParts(parts) != [] && |parts| == 2 * |OddParts(parts)| + 1
        && forall m :: m in OddParts(parts) ==> exists k :: 0 <= k < |lits| && EqualIgnoringCase(m, lits[k])
  {
    var lits := Literals(SearchTerms(search, stop)).value;
    var items := TextItems(text, filtered, lits, separator);
    if lits != [] {
      LiteralsNonEmpty(search, stop);
      if MatchesFrom(items, lits, 0) != [] {
        PartsSpellItems(items, lits);
      }
    }
  }

  /** With no term (a query of at most one character, say) the text is
      rendered as it is. */
  lemma RenderWithoutTerms(text: TextInput, search: string, filtered: bool, separator: string, stop: set<string>)
    requires SearchTerms(search, stop) == []
    ensures Render(text, search, filtered, separator, stop) == Ok(PlainText(TextItems(text, filtered, [], separator)))
  {
  }

  // ---------------------------------------------------------------------
  // A query ending in white space other than a plain space

  lemma AbTabHasNoStopWord()
    ensures RemoveStopWords("ab\t", TableStopWords) == "ab\t"
  {
    var s := "ab\t";
    assert WordRun(s[0..]) == 2 by {
      assert s[0..][1..] == "b\t";
      assert "b\t"[1..] == "\t";
    }
    assert s[0..0 + 2] == "ab";
    assert LowerAscii("ab") == "ab";
    assert StopMatchAt(s, TableStopWords, 0).None?;
    assert StopMatchAt(s, TableStopWords, 1).None?;
    assert StopMatchAt(s, TableStopWords, 2).None?;
    assert RemoveStopWordsFrom(s, TableStopWords, 2) == "\t";
    assert RemoveStopWordsFrom(s, TableStopWords, 1) == "b\t";
  }

  lemma SplitWithoutSpace(s: string)
    requires forall i :: 0 <= i < |s| ==> s[i] != ' '
    ensures Split(s, " ") == [s]
  {
    forall j | 0 <= j ensures !OccursAt(s, " ", j) {
      if j + 1 <= |s| { assert s[j..j + 1] == [s[j]]; }
    }
  }

  lemma AbTabEscaped()
    ensures Escape("ab\t") == "ab\\\t"
  {
    assert Escape("\t") == "\\\t";
    assert Escape("b\t") == "b\\\t";
  }

  lemma AbTabTrimmed()
    ensures Trim("ab\\\t") == "ab\\"
  {
    var e := "ab\\\t";
    assert !IsJsSpace(e[0]) && !IsJsSpace('\\') && IsJsSpace(e[3]);
    assert LeadingSpaces(e) == 0;
    assert e[0..] == e && e[|e| - 1] == '\t' && e[..|e| - 1] == "ab\\";
    assert TrailingSpaces("ab\\") == 0;
    assert TrailingSpaces(e) == 1;
    assert e[0..|e| - 1] == "ab\\";
  }

  lemma AbTabTerms()
    ensures SearchTerms("ab\t", TableStopWords) == ["ab\\"]
  {
    AbTabHasNoStopWord();
    AbTabEscaped();
    AbTabTrimmed();
    var t := Trim(Escape(RemoveStopWords("ab\t", TableStopWords)));
    assert t == "ab\\";
    SplitWithoutSpace(t);
    assert DropEmpty([t]) == [t];
  }

  /** As written, `"ab\t"` is escaped to `ab\<tab>`; `trim` then removes the
      tab and leaves a backslash at the end of the only term, so
      `new RegExp` throws and the component fails to render. */
  lemma TrailingTabThrows(text: TextInput, filtered: bool, separator: string)
    ensures Render(text, "ab\t", filtered, separator, TableStopWords) == Err(SyntaxError)
  {
    AbTabTermsInvalid();
  }

  /** A term ending in a lone backslash does not compile. */
  lemma AbBackslashInvalid()
    ensures Unescape("ab\\") == None
  {
    assert Unescape("\\") == None;
    assert Unescape("b\\") == None;
  }

  lemma AbTabTermsInvalid()
    ensures Literals(SearchTerms("ab\t", TableStopWords)) == Err(SyntaxError)
  {
    AbTabTerms();
    AbBackslashInvalid();
    assert Literals(["ab\\"]) == Err(SyntaxError);
  }

  /** The intended terms: the query is trimmed and cut into words before
      each word is escaped, so no escape loses the character it escapes. */
  function SearchTermsFixed(search: string, stop: set<string>): (r: seq<string>)
    ensures |search| <= 1 ==> r == []
  {
    var s := if |search| > 1 then search else "";
    var words := DropEmpty(Split(Trim(RemoveStopWords(s, stop)), " "));
    seq(|words|, k requires 0 <= k < |words| => Escape(words[k]))
  }

  /** Every intended term compiles, to a pattern matching exactly its word. */
  lemma FixedTermsCompile(search: string, stop: set<string>)
    ensures Literals(SearchTermsFixed(search, stop)).Ok?
    ensures var s := if |search| > 1 then search else "";
      Literals(SearchTermsFixed(search, stop)).value == DropEmpty(Split(Trim(RemoveStopWords(s, stop)), " "))
  {
    var s := if |search| > 1 then search else "";
    var words := DropEmpty(Split(Trim(RemoveStopWords(s, stop)), " "));
    var terms := SearchTermsFixed(search, stop);
    forall k | 0 <= k < |terms| ensures Unescape(terms[k]) == Some(words[k]) {
      UnescapeEscape(words[k]);
    }
  }
}
