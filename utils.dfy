/** The helpers of src/lib/utils.ts and their copies in src/types/util.ts:
    `slugify`, `sorter`, `parseError` and `serializeCharacter`. */
module Utils {
  import opened Strings
  import Sorting

  // ---------------------------------------------------------------------
  // slugify (utils.ts:29-39)

  /** The combining diacritical marks U+0300 to U+036F. */
  predicate IsCombiningMark(c: char) { '\U{0300}' <= c <= '\U{036F}' }

  /** `replace(/[\u0300-\u036f]/g, "")`. */
  function RemoveMarks(s: string): (r: string)
    ensures forall i :: 0 <= i < |r| ==> !IsCombiningMark(r[i])
    ensures (forall i :: 0 <= i < |s| ==> !IsCombiningMark(s[i])) ==> r == s
  {
    if s == [] then []
    else (if IsCombiningMark(s[0]) then [] else [s[0]]) + RemoveMarks(s[1..])
  }

  /** `replace(/\s+/g, "-")`: every maximal run of white space becomes one
      hyphen. */
  function CollapseSpaces(s: string): (r: string)
    ensures forall i :: 0 <= i < |r| ==> !IsJsSpace(r[i])
    ensures forall i :: 0 <= i < |r| ==> r[i] == '-' || r[i] in s
    ensures (forall i :: 0 <= i < |s| ==> !IsJsSpace(s[i])) ==> r == s
    decreases |s|
  {
    if s == [] then []
    else if IsJsSpace(s[0]) then "-" + CollapseSpaces(s[LeadingSpaces(s)..])
    else
      var rest := CollapseSpaces(s[1..]);
      assert forall i :: 0 <= i < |rest| && rest[i] in s[1..] ==> rest[i] in s;
      [s[0]] + rest
  }

  predicate IsSlugChar(c: char) { IsWordChar(c) || c == '-' }

  /** `replace(/[^\w\-]+/g, "")`. */
  function KeepSlugChars(s: string): (r: string)
    ensures forall i :: 0 <= i < |r| ==> IsSlugChar(r[i]) && r[i] in s
    ensures (forall i :: 0 <= i < |s| ==> IsSlugChar(s[i])) ==> r == s
  {
    if s == [] then []
    else
      var rest := KeepSlugChars(s[1..]);
      assert forall i :: 0 <= i < |rest| ==> rest[i] in s;
      (if IsSlugChar(s[0]) then [s[0]] else []) + rest
  }

  /** Length of the leading run of hyphens. */
  function HyphenRun(s: string): (n: nat)
    ensures n <= |s|
    ensures forall i :: 0 <= i < n ==> s[i] == '-'
    ensures n < |s| ==> s[n] != '-'
  {
    if s == [] || s[0] != '-' then 0 else 1 + HyphenRun(s[1..])
  }

  /** No two hyphens in a row. */
  predicate NoDoubleHyphen(s: string) {
    forall i :: 0 <= i < |s| - 1 ==> !(s[i] == '-' && s[i + 1] == '-')
  }

  lemma NoDoubleHyphenCons(c: char, rest: string)
    requires NoDoubleHyphen(rest) && (c == '-' && rest != [] ==> rest[0] != '-')
    ensures NoDoubleHyphen([c] + rest)
  {
    var r := [c] + rest;
    forall i | 0 <= i < |r| - 1 ensures !(r[i] == '-' && r[i + 1] == '-') {
      if i > 0 { assert r[i] == rest[i - 1] && r[i + 1] == rest[i]; }
    }
  }

  /** `replace(/\-\-+/g, "-")`: every run of two or more hyphens becomes one. */
  function CollapseHyphens(s: string): (r: string)
    ensures NoDoubleHyphen(r)
    ensures forall i :: 0 <= i < |r| ==> r[i] in s
    ensures s == [] <==> r == []
    ensures s != [] ==> r[0] == s[0]
    decreases |s|
  {
    if s == [] then []
    else if s[0] == '-' then
      var n := HyphenRun(s);
      var rest := CollapseHyphens(s[n..]);
      SuffixChars(s, n, rest);
      NoDoubleHyphenCons('-', rest);
      "-" + rest
    else
      var rest := CollapseHyphens(s[1..]);
      SuffixChars(s, 1, rest);
      NoDoubleHyphenCons(s[0], rest);
      [s[0]] + rest
  }

  /** A text without a double hyphen is left as it is. */
  lemma {:induction false} CollapseHyphensKeeps(s: string)
    requires NoDoubleHyphen(s)
    ensures CollapseHyphens(s) == s
    decreases |s|
  {
    if s != [] {
      assert NoDoubleHyphen(s[1..]);
      if s[0] == '-' {
        assert HyphenRun(s) == 1;
      }
      CollapseHyphensKeeps(s[1..]);
    }
  }

  /** Characters drawn from a suffix of `s` are drawn from `s`. */
  lemma SuffixChars(s: string, n: nat, rest: string)
    requires n <= |s| && forall i :: 0 <= i < |rest| ==> rest[i] in s[n..]
    ensures forall i :: 0 <= i < |rest| ==> rest[i] in s
  {
    forall i | 0 <= i < |rest| ensures rest[i] in s {
      var k :| 0 <= k < |s[n..]| && s[n..][k] == rest[i];
      assert s[n + k] == rest[i];
    }
  }

  /** `slugify(text)`, given the NFD form of `text` and `toLowerCase`. */
  function Slugify(nfd: string, lower: string -> string): (r: string)
  {
    CollapseHyphens(KeepSlugChars(CollapseSpaces(Trim(lower(RemoveMarks(nfd))))))
  }

  predicate NoAsciiUpper(s: string) { forall i :: 0 <= i < |s| ==> !IsAsciiUpper(s[i]) }

  /** A slug holds only word characters and hyphens, has no white space and
      no two hyphens in a row; when lower-casing leaves no ASCII capital,
      every character is one of `[a-z0-9_-]`. */
  lemma SlugifyShape(nfd: string, lower: string -> string)
    ensures var r := Slugify(nfd, lower);
      && (forall i :: 0 <= i < |r| ==> IsSlugChar(r[i]) && !IsJsSpace(r[i]))
      && NoDoubleHyphen(r)
    ensures NoAsciiUpper(lower(RemoveMarks(nfd))) ==>
      var r := Slugify(nfd, lower);
      forall i :: 0 <= i < |r| ==> IsAsciiLower(r[i]) || IsDigit(r[i]) || r[i] == '_' || r[i] == '-'
  {
    var l := lower(RemoveMarks(nfd));
    var t := Trim(l);
    var k := KeepSlugChars(CollapseSpaces(t));
    var r := CollapseHyphens(k);
    if NoAsciiUpper(l) {
      forall i | 0 <= i < |r|
        ensures IsAsciiLower(r[i]) || IsDigit(r[i]) || r[i] == '_' || r[i] == '-'
      {
        assert r[i] in k;
        assert r[i] in CollapseSpaces(t);
        if r[i] != '-' {
          assert r[i] in t;
          var j :| 0 <= j < |t| && t[j] == r[i];
          assert t[j] == l[LeadingSpaces(l) + j];
        }
      }
    }
  }

  /** Trimming a string without white space leaves it as it is. */
  lemma TrimWithoutSpace(s: string)
    requires forall i :: 0 <= i < |s| ==> !IsJsSpace(s[i])
    ensures Trim(s) == s
  {
    if s != [] {
      assert LeadingSpaces(s) == 0;
      assert s[0..] == s;
      assert TrailingSpaces(s) == 0;
    }
  }

  /** A slug is its own slug, when lower-casing leaves it as it is. */
  lemma SlugifyIdempotent(nfd: string, lower: string -> string)
    requires var r := Slugify(nfd, lower); lower(r) == r
    ensures Slugify(Slugify(nfd, lower), lower) == Slugify(nfd, lower)
  {
    var r := Slugify(nfd, lower);
    SlugifyShape(nfd, lower);
    SlugCharsUnchanged(r);
    assert lower(RemoveMarks(r)) == r;
  }

  /** Each cleaning step leaves a string of slug characters without double
      hyphens as it is. */
  lemma SlugCharsUnchanged(r: string)
    requires forall i :: 0 <= i < |r| ==> IsSlugChar(r[i]) && !IsJsSpace(r[i])
    requires NoDoubleHyphen(r)
    ensures RemoveMarks(r) == r
    ensures CollapseHyphens(KeepSlugChars(CollapseSpaces(Trim(r)))) == r
  {
    assert forall i :: 0 <= i < |r| ==> !IsCombiningMark(r[i]);
    TrimWithoutSpace(r);
    CleaningUnchanged(r);
  }

  lemma CleaningUnchanged(r: string)
    requires forall i :: 0 <= i < |r| ==> IsSlugChar(r[i]) && !IsJsSpace(r[i])
    requires NoDoubleHyphen(r)
    ensures CollapseHyphens(KeepSlugChars(CollapseSpaces(r))) == r
  {
    var c := CollapseSpaces(r);
    assert c == r;
    var k := KeepSlugChars(c);
    assert k == r;
    CollapseHyphensKeeps(r);
  }

  // ---------------------------------------------------------------------
  // sorter (utils.ts:80-87, util.ts:41-48)

  /** The three kinds of value `sorter` compares; a date is its `getTime()`. */
  datatype Sortable = Str(s: string) | Num(n: int) | Date(time: int)

  /** `sorter(a, b)`, given `toISOString`. */
  function Sorter(a: Sortable, b: Sortable, iso: int -> string): (r: int)
    ensures a.Num? && b.Num? ==> r == a.n - b.n
    ensures a.Date? && b.Date? ==> r == a.time - b.time
    ensures (a.Num? && !b.Num?) || (b.Num? && !a.Num?) ==> r == 0
  {
    match (a, b)
    case (Str(x), Str(y)) => Sorting.CompareStrings(x, y)
    case (Num(x), Num(y)) => x - y
    case (Date(x), Date(y)) => x - y
    case (Str(x), Date(y)) => Sorting.CompareStrings(x, iso(y))
    case (Date(x), Str(y)) => Sorting.CompareStrings(iso(x), y)
    case _ => 0
  }

  /** `sorter` is antisymmetric on every pair, and zero on equal values:
      a string meets a date through the date's ISO form from either side. */
  lemma {:induction false} SorterAntisymmetric(a: Sortable, b: Sortable, iso: int -> string)
    ensures Sorter(a, b, iso) == -Sorter(b, a, iso)
    ensures Sorter(a, a, iso) == 0
    ensures a.Str? && b.Date? ==> Sorter(a, b, iso) == Sorting.CompareStrings(a.s, iso(b.time))
  {
    match (a, b)
    case (Str(x), Str(y)) => Sorting.CompareStringsAntisymmetric(x, y);
    case (Str(x), Date(y)) => Sorting.CompareStringsAntisymmetric(x, iso(y));
    case (Date(x), Str(y)) => Sorting.CompareStringsAntisymmetric(iso(x), y);
    case _ =>
  }

  // ---------------------------------------------------------------------
  // parseError (utils.ts:18-23)

  /** A thrown value: an `Error`, a string, another object or `null` (with
      its `JSON.stringify` text), or anything else. */
  datatype Thrown = ErrorValue(message: string) | StringValue(s: string) | ObjectValue(json: string) | OtherValue

  const UnknownError := "Unknown error"

  function ParseError(e: Thrown): (r: string)
    ensures e.ErrorValue? ==> r == e.message
    ensures e.StringValue? ==> r == e.s
    ensures e.ObjectValue? ==> r == e.json
    ensures e.OtherValue? ==> r == UnknownError
  {
    match e
    case ErrorValue(m) => m
    case StringValue(s) => s
    case ObjectValue(j) => j
    case OtherValue => UnknownError
  }

  /** The message is stable: re-throwing it as an `Error` or as a string
      and parsing again reports the same text. */
  lemma ParseErrorRethrown(e: Thrown)
    ensures ParseError(ErrorValue(ParseError(e))) == ParseError(e)
    ensures ParseError(StringValue(ParseError(e))) == ParseError(e)
  {
  }

  // ---------------------------------------------------------------------
  // serializeCharacter (utils.ts:63-78, util.ts:24-39)

  /** A log as it comes over the wire: its dates are strings. */
  datatype LogJson = LogJson(id: string, name: string, date: string, appliedDate: Option<string>, createdAt: string)
  datatype CharacterJson = CharacterJson(id: string, name: string, createdAt: string, emailVerified: Option<string>, logs: seq<LogJson>)

  /** The same with its dates parsed (a date is its `getTime()`). */
  datatype LogDates = LogDates(id: string, name: string, date: int, appliedDate: Option<int>, createdAt: int)
  datatype CharacterDates = CharacterDates(id: string, name: string, createdAt: int, emailVerified: Option<int>, logs: seq<LogDates>)

  /** `x ? new Date(x) : null`. */
  function ParseOptional(x: Option<string>, parse: string -> int): (r: Option<int>)
    ensures r.Some? <==> x.Some? && x.value != []
  {
    if x.Some? && x.value != [] then Some(parse(x.value)) else None
  }

  function SerializeLog(log: LogJson, parse: string -> int): LogDates {
    LogDates(log.id, log.name, parse(log.date), ParseOptional(log.appliedDate, parse), parse(log.createdAt))
  }

  function SerializeLogs(logs: seq<LogJson>, parse: string -> int): (r: seq<LogDates>)
    ensures |r| == |logs|
    ensures forall i :: 0 <= i < |logs| ==> r[i] == SerializeLog(logs[i], parse)
  {
    if logs == [] then [] else [SerializeLog(logs[0], parse)] + SerializeLogs(logs[1..], parse)
  }

  /** `serializeCharacter(data)`, given `new Date(string)`. */
  function SerializeCharacter(data: CharacterJson, parse: string -> int): CharacterDates {
    CharacterDates(data.id, data.name, parse(data.createdAt), ParseOptional(data.emailVerified, parse),
      SerializeLogs(data.logs, parse))
  }

  /** Serialising keeps the logs, their number and their order, keeps every
      field that is not a date, and a missing applied date stays missing. */
  lemma SerializeCharacterKeepsLogs(data: CharacterJson, parse: string -> int)
    ensures var r := SerializeCharacter(data, parse);
      && r.id == data.id && r.name == data.name
      && |r.logs| == |data.logs|
      && (forall i :: 0 <= i < |data.logs| ==>
            && r.logs[i].id == data.logs[i].id && r.logs[i].name == data.logs[i].name
            && r.logs[i].date == parse(data.logs[i].date)
            && (r.logs[i].appliedDate.None? <==> data.logs[i].appliedDate.None? || data.logs[i].appliedDate.value == []))
  {
  }
}
