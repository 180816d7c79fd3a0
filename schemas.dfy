/** The input validators of src/types/schemas.ts: the date grammar, the DM,
    log and new-character schemas over JSON-like values, and the resolver
    that turns their issues into form errors. */
module Schemas {
  import opened Strings

  // ---------------------------------------------------------------------
  // The date grammar (schemas.ts:26-27)

  /** The value of the decimal digit at `s[i]`. */
  function DigitAt(s: string, i: nat): (d: int)
    requires i < |s|
  {
    s[i] as int - '0' as int
  }

  predicate DigitsAt(s: string, i: nat, n: nat) {
    i + n <= |s| && forall k :: i <= k < i + n ==> IsDigit(s[k])
  }

  /** `0[1-9]|1[0-2]` at `i`. */
  predicate MonthAt(s: string, i: nat) {
    DigitsAt(s, i, 2) && ((DigitAt(s, i) == 0 && DigitAt(s, i + 1) >= 1) || (DigitAt(s, i) == 1 && DigitAt(s, i + 1) <= 2))
  }

  /** `[12]\d|0[1-9]|3[01]` at `i`. */
  predicate DayAt(s: string, i: nat) {
    DigitsAt(s, i, 2)
    && ((1 <= DigitAt(s, i) <= 2) || (DigitAt(s, i) == 0 && DigitAt(s, i + 1) >= 1) || (DigitAt(s, i) == 3 && DigitAt(s, i + 1) <= 1))
  }

  /** `(0|1)\d|2[0-4]` at `i`. */
  predicate HourAt(s: string, i: nat) {
    DigitsAt(s, i, 2) && (DigitAt(s, i) <= 1 || (DigitAt(s, i) == 2 && DigitAt(s, i + 1) <= 4))
  }

  /** `[0-5]\d` at `i`. */
  predicate MinuteAt(s: string, i: nat) {
    DigitsAt(s, i, 2) && DigitAt(s, i) <= 5
  }

  /** `\d{4}-MM-DDTHH:MM:SS`, exactly. */
  predicate BaseOk(b: string) {
    && |b| == 19 && DigitsAt(b, 0, 4) && b[4] == '-' && MonthAt(b, 5) && b[7] == '-' && DayAt(b, 8)
    && b[10] == 'T' && HourAt(b, 11) && b[13] == ':' && MinuteAt(b, 14) && b[16] == ':' && MinuteAt(b, 17)
  }

  /** `Z|(\+|-)HH:MM`, exactly. */
  predicate ZoneOk(z: string) {
    z == "Z" || (|z| == 6 && (z[0] == '+' || z[0] == '-') && HourAt(z, 1) && z[3] == ':' && MinuteAt(z, 4))
  }

  /** `(\.\d{3})?` followed by a zone, exactly. */
  predicate TailOk(t: string) {
    ZoneOk(t) || (|t| >= 4 && t[0] == '.' && DigitsAt(t, 1, 3) && ZoneOk(t[4..]))
  }

  /** `dateRegex.test(s)`: the pattern is anchored at both ends. */
  predicate IsDateString(s: string) {
    |s| >= 19 && BaseOk(s[..19]) && TailOk(s[19..])
  }

  /** A date as the grammar spells it. */
  datatype Zone = Utc | Offset(plus: bool, hours: nat, minutes: nat)
  datatype Base = Base(year: nat, month: nat, day: nat, hour: nat, minute: nat, second: nat)
  datatype DateParts = DateParts(base: Base, millis: Option<nat>, zone: Zone)

  /** The fields the grammar admits: any day up to 31 in any month, hours
      (of the time and of the offset) up to 24. */
  predicate BaseValid(x: Base) {
    x.year < 10000 && 1 <= x.month <= 12 && 1 <= x.day <= 31 && x.hour <= 24 && x.minute <= 59 && x.second <= 59
  }

  predicate ZoneValid(z: Zone) { z.Offset? ==> z.hours <= 24 && z.minutes <= 59 }

  predicate PartsValid(p: DateParts) {
    BaseValid(p.base) && (p.millis.Some? ==> p.millis.value < 1000) && ZoneValid(p.zone)
  }

  function Pow10(w: nat): (r: nat)
    ensures r >= 1
  {
    if w == 0 then 1 else 10 * Pow10(w - 1)
  }

  /** `n` written with exactly `w` digits, zero-padded. */
  function Pad(n: nat, w: nat): (r: string)
    ensures |r| == w && AllDigits(r)
  {
    if w == 0 then [] else Pad(n / 10, w - 1) + [DigitChar(n % 10)]
  }

  lemma {:induction false} PadValue(n: nat, w: nat)
    requires n < Pow10(w)
    ensures DigitsValue(Pad(n, w)) == n
  {
    if w > 0 {
      PadValue(n / 10, w - 1);
      var p := Pad(n, w);
      assert p[..|p| - 1] == Pad(n / 10, w - 1);
    }
  }

  lemma {:induction false} PadOfValue(d: string)
    requires AllDigits(d)
    ensures Pad(DigitsValue(d), |d|) == d
    ensures DigitsValue(d) < Pow10(|d|)
  {
    if d != [] {
      var init := d[..|d| - 1];
      PadOfValue(init);
      var v := DigitsValue(d);
      var last := d[|d| - 1] as int - '0' as int;
      assert v == 10 * DigitsValue(init) + last;
      assert v / 10 == DigitsValue(init) && v % 10 == last;
      assert d == init + [d[|d| - 1]];
    }
  }

  lemma Pad2(n: nat)
    requires n < 100
    ensures Pad(n, 2) == [DigitChar(n / 10), DigitChar(n % 10)]
  {
    var a := n / 10;
    assert a < 10;
    assert a % 10 == a && a / 10 == 0;
    assert Pad(a, 1) == Pad(0, 0) + [DigitChar(a)];
    assert Pad(n, 2) == Pad(a, 1) + [DigitChar(n % 10)];
  }

  /** The value of the two digits at `i`. */
  lemma TwoDigits(s: string, i: nat)
    requires DigitsAt(s, i, 2)
    ensures AllDigits(s[i..i + 2]) && DigitsValue(s[i..i + 2]) == 10 * DigitAt(s, i) + DigitAt(s, i + 1)
  {
    var d := s[i..i + 2];
    assert d[..|d| - 1] == [s[i]];
    assert [s[i]][..0] == [];
    assert DigitsValue([s[i]]) == DigitAt(s, i);
  }

  /** The two digits at `i` are the padded form of their value. */
  lemma TwoAtFacts(s: string, i: nat)
    requires DigitsAt(s, i, 2)
    ensures TwoAt(s, i) == 10 * DigitAt(s, i) + DigitAt(s, i + 1)
    ensures Pad(TwoAt(s, i), 2) == s[i..i + 2]
  {
    TwoDigits(s, i);
    PadOfValue(s[i..i + 2]);
  }

  function FormatBase(x: Base): string {
    Pad(x.year, 4) + "-" + Pad(x.month, 2) + "-" + Pad(x.day, 2) + "T"
    + Pad(x.hour, 2) + ":" + Pad(x.minute, 2) + ":" + Pad(x.second, 2)
  }

  function ZoneText(z: Zone): string {
    match z
    case Utc => "Z"
    case Offset(plus, h, m) => (if plus then "+" else "-") + Pad(h, 2) + ":" + Pad(m, 2)
  }

  /** The ISO-like text of a date. */
  function FormatDate(p: DateParts): string {
    FormatBase(p.base) + (if p.millis.Some? then "." + Pad(p.millis.value, 3) else "") + ZoneText(p.zone)
  }

  function TwoAt(s: string, i: nat): nat
    requires DigitsAt(s, i, 2)
  {
    TwoDigits(s, i);
    DigitsValue(s[i..i + 2])
  }

  function ParseBase(b: string): Base
    requires BaseOk(b)
  {
    assert AllDigits(b[0..4]);
    Base(DigitsValue(b[0..4]), TwoAt(b, 5), TwoAt(b, 8), TwoAt(b, 11), TwoAt(b, 14), TwoAt(b, 17))
  }

  function ParseZone(z: string): Zone
    requires ZoneOk(z)
  {
    if z == "Z" then Utc else Offset(z[0] == '+', TwoAt(z, 1), TwoAt(z, 4))
  }

  /** The fields of an accepted date string. */
  function ParseDate(s: string): (p: DateParts)
    requires IsDateString(s)
  {
    var t := s[19..];
    if ZoneOk(t) then DateParts(ParseBase(s[..19]), None, ParseZone(t))
    else
      assert AllDigits(t[1..4]);
      DateParts(ParseBase(s[..19]), Some(DigitsValue(t[1..4])), ParseZone(t[4..]))
  }

  /** Two digits at `i` that spell `n`. */
  lemma TwoAtPad(s: string, i: nat, n: nat)
    requires n < 100 && i + 2 <= |s| && s[i..i + 2] == Pad(n, 2)
    ensures DigitsAt(s, i, 2) && DigitAt(s, i) == n / 10 && DigitAt(s, i + 1) == n % 10 && TwoAt(s, i) == n
  {
    Pad2(n);
    assert s[i] == s[i..i + 2][0] && s[i + 1] == s[i..i + 2][1];
    PadValue(n, 2);
  }

  lemma FormatBaseOk(x: Base)
    requires BaseValid(x)
    ensures BaseOk(FormatBase(x)) && ParseBase(FormatBase(x)) == x
  {
    var b := FormatBase(x);
    assert b[0..4] == Pad(x.year, 4);
    assert b[5..7] == Pad(x.month, 2);
    assert b[8..10] == Pad(x.day, 2);
    assert b[11..13] == Pad(x.hour, 2);
    assert b[14..16] == Pad(x.minute, 2);
    assert b[17..19] == Pad(x.second, 2);
    TwoAtPad(b, 5, x.month);
    TwoAtPad(b, 8, x.day);
    TwoAtPad(b, 11, x.hour);
    TwoAtPad(b, 14, x.minute);
    TwoAtPad(b, 17, x.second);
    PadValue(x.year, 4);
  }

  lemma ParseBaseOk(b: string)
    requires BaseOk(b)
    ensures BaseValid(ParseBase(b)) && FormatBase(ParseBase(b)) == b
  {
    var x := ParseBase(b);
    TwoAtFacts(b, 5);
    TwoAtFacts(b, 8);
    TwoAtFacts(b, 11);
    TwoAtFacts(b, 14);
    TwoAtFacts(b, 17);
    assert AllDigits(b[0..4]);
    PadOfValue(b[0..4]);
    assert x.year < Pow10(4);
    PadsSpellBase(b, x);
  }

  /** The separators and the padded fields of a base spell it back. */
  lemma PadsSpellBase(b: string, x: Base)
    requires |b| == 19 && b[4] == '-' && b[7] == '-' && b[10] == 'T' && b[13] == ':' && b[16] == ':'
    requires Pad(x.year, 4) == b[0..4] && Pad(x.month, 2) == b[5..7] && Pad(x.day, 2) == b[8..10]
    requires Pad(x.hour, 2) == b[11..13] && Pad(x.minute, 2) == b[14..16] && Pad(x.second, 2) == b[17..19]
    ensures FormatBase(x) == b
  {
    Glue(b, 4, 7, Pad(x.year, 4), "-", Pad(x.month, 2));
    var s7 := Pad(x.year, 4) + "-" + Pad(x.month, 2);
    Glue(b, 7, 10, s7, "-", Pad(x.day, 2));
    var s10 := s7 + "-" + Pad(x.day, 2);
    Glue(b, 10, 13, s10, "T", Pad(x.hour, 2));
    var s13 := s10 + "T" + Pad(x.hour, 2);
    Glue(b, 13, 16, s13, ":", Pad(x.minute, 2));
    var s16 := s13 + ":" + Pad(x.minute, 2);
    Glue(b, 16, 19, s16, ":", Pad(x.second, 2));
    assert b[..19] == b;
  }

  /** A prefix, the separator after it and the field after that spell a
      longer prefix. */
  lemma Glue(b: string, m: nat, j: nat, left: string, sep: string, right: string)
    requires m < j <= |b| && left == b[..m] && sep == [b[m]] && right == b[m + 1..j]
    ensures left + sep + right == b[..j]
  {
    assert b[..j] == b[..m] + [b[m]] + b[m + 1..j];
  }

  lemma FormatZoneOk(z: Zone)
    requires ZoneValid(z)
    ensures ZoneOk(ZoneText(z)) && ParseZone(ZoneText(z)) == z
  {
    if z.Offset? {
      var t := ZoneText(z);
      assert t[1..3] == Pad(z.hours, 2);
      assert t[4..6] == Pad(z.minutes, 2);
      TwoAtPad(t, 1, z.hours);
      TwoAtPad(t, 4, z.minutes);
    }
  }

  lemma ParseZoneOk(z: string)
    requires ZoneOk(z)
    ensures ZoneValid(ParseZone(z)) && ZoneText(ParseZone(z)) == z
  {
    if z != "Z" {
      TwoDigits(z, 1);
      TwoDigits(z, 4);
      PadOfValue(z[1..3]);
      PadOfValue(z[4..6]);
      assert z == [z[0]] + z[1..3] + [z[3]] + z[4..6];
    }
  }

  /** Every well-formed date is spelled in a form the grammar accepts, and
      reading that text back gives the date. */
  lemma FormatDateAccepted(p: DateParts)
    requires PartsValid(p)
    ensures IsDateString(FormatDate(p)) && ParseDate(FormatDate(p)) == p
  {
    var s := FormatDate(p);
    var b := FormatBase(p.base);
    var z := ZoneText(p.zone);
    FormatBaseOk(p.base);
    FormatZoneOk(p.zone);
    assert s[..19] == b;
    var t := s[19..];
    if p.millis.Some? {
      var m := Pad(p.millis.value, 3);
      assert t == "." + m + z;
      assert t[4..] == z;
      assert t[1..4] == m;
      assert z[0] != '.';
      PadValue(p.millis.value, 3);
    } else {
      assert t == z;
    }
  }

  /** Every accepted string is the text of a well-formed date. */
  lemma AcceptedDateFormats(s: string)
    requires IsDateString(s)
    ensures PartsValid(ParseDate(s)) && FormatDate(ParseDate(s)) == s
  {
    var t := s[19..];
    ParseBaseOk(s[..19]);
    if ZoneOk(t) {
      ParseZoneOk(t);
      assert s == s[..19] + t;
    } else {
      ParseZoneOk(t[4..]);
      PadOfValue(t[1..4]);
      assert t == [t[0]] + t[1..4] + t[4..];
      assert s == s[..19] + t;
    }
  }

  /** The grammar accepts exactly the texts of well-formed dates. */
  lemma DateGrammarIff(s: string)
    ensures IsDateString(s) <==> exists p :: PartsValid(p) && FormatDate(p) == s
  {
    if IsDateString(s) {
      AcceptedDateFormats(s);
    }
    if exists p :: PartsValid(p) && FormatDate(p) == s {
      var p :| PartsValid(p) && FormatDate(p) == s;
      FormatDateAccepted(p);
    }
  }

  lemma Year2023()
    ensures Pad(2023, 4) == "2023"
  {
    assert Pad(2, 1) == "2";
    assert Pad(20, 2) == "20";
    assert Pad(202, 3) == "202";
  }

  lemma EdgeBase()
    ensures FormatBase(Base(2023, 2, 31, 24, 0, 0)) == "2023-02-31T24:00:00"
  {
    var b := "2023-02-31T24:00:00";
    Year2023();
    assert b[0..4] == "2023";
    Pad2(2);
    Pad2(31);
    Pad2(24);
    Pad2(0);
    PadsSpellBase(b, Base(2023, 2, 31, 24, 0, 0));
  }

  /** No per-month day check, and an hour of 24 is accepted. */
  lemma DateGrammarAcceptsEdges()
    ensures IsDateString("2023-02-31T24:00:00Z")
  {
    UtcAccepted(Base(2023, 2, 31, 24, 0, 0));
    EdgeBase();
    EdgeText();
  }

  /** A valid base followed by `Z` is accepted. */
  lemma UtcAccepted(x: Base)
    requires BaseValid(x)
    ensures IsDateString(FormatBase(x) + "Z")
  {
    var p := DateParts(x, None, Utc);
    FormatDateAccepted(p);
    assert FormatDate(p) == FormatBase(x) + "Z";
  }

  lemma EdgeText()
    ensures "2023-02-31T24:00:00" + "Z" == "2023-02-31T24:00:00Z"
  {
  }

  /** Hour 25 is rejected. */
  lemma DateGrammarRejectsHour25()
    ensures !IsDateString("2023-01-01T25:00:00Z")
  {
    var x := "2023-01-01T25:00:00Z";
    assert x[..19][11] == '2' && x[..19][12] == '5';
  }

  /** Month 13 is rejected. */
  lemma DateGrammarRejectsMonth13()
    ensures !IsDateString("2023-13-01T00:00:00Z")
  {
    var y := "2023-13-01T00:00:00Z";
    assert y[..19][5] == '1' && y[..19][6] == '3';
  }

  // ---------------------------------------------------------------------
  // Values and issues

  /** A value handed to a schema. */
  datatype Value = Undefined | Null | Bool(b: bool) | Num(n: int) | Text(s: string) | DateVal(time: int)
                 | List(items: seq<Value>) | Obj(fields: map<string, Value>)

  /** A failed check: the path of keys to the value and the message. */
  datatype Issue = Issue(path: seq<string>, message: string)

  /** What parsing one field gives: its issues, and its output (meaningful
      only when there are none). */
  datatype Checked<T> = Checked(issues: seq<Issue>, value: T)

  const InvalidType := "Invalid type"
  const Required := "Required"
  const MustBeNumber := "Must be a number"
  const NonNegative := "Must be a non-negative number"
  const InvalidDateFormat := "Invalid Date Format"
  const InvalidUrl := "Invalid URL"

  function Field(v: Value, k: string): Value {
    if v.Obj? && k in v.fields then v.fields[k] else Undefined
  }

  /** `useDefault`: a missing value is replaced before it is checked. */
  function Default(v: Value, d: Value): (r: Value)
    ensures v.Undefined? ==> r == d
    ensures !v.Undefined? ==> r == v
  {
    if v.Undefined? then d else v
  }

  function TextOf(v: Value, path: seq<string>): (r: Checked<string>)
    ensures r.issues == [] <==> v.Text?
    ensures v.Text? ==> r.value == v.s
  {
    if v.Text? then Checked([], v.s) else Checked([Issue(path, InvalidType)], "")
  }

  /** `string([minLength(1, "Required")])`. */
  function RequiredText(v: Value, path: seq<string>): (r: Checked<string>)
    ensures r.issues == [] <==> v.Text? && v.s != []
    ensures v.Text? ==> r.value == v.s
    ensures v.Text? && v.s == [] ==> r.issues == [Issue(path, Required)]
  {
    if !v.Text? then Checked([Issue(path, InvalidType)], "")
    else if v.s == [] then Checked([Issue(path, Required)], v.s)
    else Checked([], v.s)
  }

  /** `number(msg)`, optionally with `minValue(0, ...)`. */
  function NumberOf(v: Value, path: seq<string>, typeMessage: string, nonNegative: bool): (r: Checked<int>)
    ensures r.issues == [] <==> v.Num? && (nonNegative ==> v.n >= 0)
    ensures v.Num? ==> r.value == v.n
  {
    if !v.Num? then Checked([Issue(path, typeMessage)], 0)
    else if nonNegative && v.n < 0 then Checked([Issue(path, NonNegative)], v.n)
    else Checked([], v.n)
  }

  function BoolOf(v: Value, path: seq<string>): (r: Checked<bool>)
    ensures r.issues == [] <==> v.Bool?
  {
    if v.Bool? then Checked([], v.b) else Checked([Issue(path, InvalidType)], false)
  }

  /** A date as `dateSchema` accepts it: a `Date` object or a string in the
      grammar. */
  datatype DateInput = DateObject(time: int) | DateText(text: string)

  function DateOf(v: Value, path: seq<string>): (r: Checked<DateInput>)
    ensures r.issues == [] <==> v.DateVal? || (v.Text? && IsDateString(v.s))
    ensures r.issues != [] ==> r.issues == [Issue(path, InvalidDateFormat)]
  {
    if v.DateVal? then Checked([], DateObject(v.time))
    else if v.Text? && IsDateString(v.s) then Checked([], DateText(v.s))
    else Checked([Issue(path, InvalidDateFormat)], DateObject(0))
  }

  /** `nullable(dateSchema)`. */
  function NullableDateOf(v: Value, path: seq<string>): (r: Checked<Option<DateInput>>)
    ensures r.issues == [] <==> v.Null? || v.DateVal? || (v.Text? && IsDateString(v.s))
  {
    if v.Null? then Checked([], None) else var d := DateOf(v, path); Checked(d.issues, Some(d.value))
  }

  /** `/[0-9]{0,10}/.test(s)`: some run of at most ten digits occurs in `s`. */
  predicate DciPatternMatches(s: string) {
    exists i, n :: 0 <= i <= |s| && 0 <= n <= 10 && DigitsAt(s, i, n)
  }

  /** The pattern is not anchored and may match no digits at all, so every
      string passes it. */
  lemma DciPatternAcceptsAll(s: string)
    ensures DciPatternMatches(s)
  {
    assert DigitsAt(s, 0, 0);
  }

  /** `nullable(string([regex(/[0-9]{0,10}/)]))`. */
  function DciOf(v: Value, path: seq<string>): (r: Checked<Option<string>>)
    ensures r.issues == [] <==> v.Null? || v.Text?
    ensures v.Text? ==> r.value == Some(v.s)
  {
    if v.Null? then Checked([], None)
    else if !v.Text? then Checked([Issue(path, InvalidType)], None)
    else
      DciPatternAcceptsAll(v.s);
      Checked([], Some(v.s))
  }

  /** `nullish(string())`. */
  function NullishTextOf(v: Value, path: seq<string>): (r: Checked<Option<string>>)
    ensures r.issues == [] <==> v.Null? || v.Undefined? || v.Text?
  {
    if v.Null? || v.Undefined? then Checked([], None)
    else if v.Text? then Checked([], Some(v.s))
    else Checked([Issue(path, InvalidType)], None)
  }

  // ---------------------------------------------------------------------
  // dungeonMasterSchema (schemas.ts:30-35)

  datatype DMOutput = DMOutput(id: string, name: string, dci: Option<string>, uid: Option<string>)

  function ParseDMFields(v: Value, path: seq<string>, idDefault: bool, nameRequired: bool): (r: Checked<DMOutput>)
  {
    if !v.Obj? then Checked([Issue(path, InvalidType)], DMOutput("", "", None, None))
    else
    var id := TextOf(if idDefault then Default(Field(v, "id"), Text("")) else Field(v, "id"), path + ["id"]);
    var nameValue := if nameRequired then Field(v, "name") else Default(Field(v, "name"), Text(""));
    var name := if nameRequired then RequiredText(nameValue, path + ["name"]) else TextOf(nameValue, path + ["name"]);
    var dci := DciOf(Default(Field(v, "DCI"), Null), path + ["DCI"]);
    var uid := NullishTextOf(Default(Field(v, "uid"), Text("")), path + ["uid"]);
    Checked(id.issues + name.issues + dci.issues + uid.issues, DMOutput(id.value, name.value, dci.value, uid.value))
  }

  /** `safeParse(dungeonMasterSchema, v)`. Like every `object()` schema, a
      value that is not an object gives the one issue "Invalid type" at its
      own path, and its fields are not looked at. */
  function ParseDM(v: Value): Checked<DMOutput> {
    ParseDMFields(v, [], false, true)
  }

  /** A DM parses exactly when it is an object with a string id and a
      non-empty name, and a DCI and a uid of the right kinds; a missing DCI
      becomes `null`, a missing uid becomes "", and any DCI text passes. */
  lemma ParseDMIff(v: Value)
    ensures ParseDM(v).issues == [] <==>
      && v.Obj? && Field(v, "id").Text? && Field(v, "name").Text? && Field(v, "name").s != []
      && (Field(v, "DCI").Undefined? || Field(v, "DCI").Null? || Field(v, "DCI").Text?)
      && (Field(v, "uid").Undefined? || Field(v, "uid").Null? || Field(v, "uid").Text?)
    ensures ParseDM(v).issues == [] ==>
      && ParseDM(v).value.name == Field(v, "name").s
      && (Field(v, "DCI").Undefined? ==> ParseDM(v).value.dci.None?)
      && (Field(v, "DCI").Text? ==> ParseDM(v).value.dci == Some(Field(v, "DCI").s))
      && (Field(v, "uid").Undefined? ==> ParseDM(v).value.uid == Some(""))
  {
  }

  // ---------------------------------------------------------------------
  // logSchema (schemas.ts:38-82)

  datatype ItemOutput = ItemOutput(id: string, name: string, description: string)

  datatype LogOutput = LogOutput(
    id: string, name: string, date: DateInput, characterId: string, characterName: string,
    logType: string, experience: int, acp: int, tcp: int, level: int, gold: int, dtd: int,
    description: string, dm: DMOutput, isDmLog: bool, appliedDate: Option<DateInput>,
    magicItemsGained: seq<ItemOutput>, magicItemsLost: seq<string>,
    storyAwardsGained: seq<ItemOutput>, storyAwardsLost: seq<string>)

  /** `union([literal("game"), literal("nongame")])`. */
  function LogTypeOf(v: Value, path: seq<string>): (r: Checked<string>)
    ensures r.issues == [] <==> v.Text? && (v.s == "game" || v.s == "nongame")
    ensures r.issues == [] ==> r.value == v.s
  {
    if v.Text? && (v.s == "game" || v.s == "nongame") then Checked([], v.s)
    else Checked([Issue(path, InvalidType)], "game")
  }

  /** An element the item schema accepts: an object with a non-empty name,
      and an id and a description that are strings when present. */
  predicate ItemOk(v: Value) {
    v.Obj? && Default(Field(v, "id"), Text("")).Text? && Field(v, "name").Text? && Field(v, "name").s != []
    && Default(Field(v, "description"), Text("")).Text?
  }

  function ItemOf(v: Value, path: seq<string>): (r: Checked<ItemOutput>)
    ensures r.issues == [] ==> r.value.name != []
    ensures r.issues == [] <==> ItemOk(v)
  {
    if !v.Obj? then Checked([Issue(path, InvalidType)], ItemOutput("", "", ""))
    else
    var id := TextOf(Default(Field(v, "id"), Text("")), path + ["id"]);
    var name := RequiredText(Field(v, "name"), path + ["name"]);
    var description := TextOf(Default(Field(v, "description"), Text("")), path + ["description"]);
    Checked(id.issues + name.issues + description.issues, ItemOutput(id.value, name.value, description.value))
  }

  /** The elements of an array from position `from`, each under its index. */
  function ItemsFrom(items: seq<Value>, path: seq<string>, from: nat): (r: Checked<seq<ItemOutput>>)
    requires from <= |items|
    ensures |r.value| == |items| - from
    ensures r.issues == [] <==> forall i :: from <= i < |items| ==> ItemOk(items[i])
    ensures r.issues == [] ==> forall i :: 0 <= i < |r.value| ==> r.value[i].name != []
    decreases |items| - from
  {
    if from == |items| then Checked([], [])
    else
      var x := ItemOf(items[from], path + [IntToString(from)]);
      var rest := ItemsFrom(items, path, from + 1);
      assert x.issues + rest.issues == [] <==> x.issues == [] && rest.issues == [];
      assert x.issues == [] ==> x.value.name != [];
      Checked(x.issues + rest.issues, [x.value] + rest.value)
  }

  function LostFrom(items: seq<Value>, path: seq<string>, from: nat): (r: Checked<seq<string>>)
    requires from <= |items|
    ensures |r.value| == |items| - from
    ensures r.issues == [] <==> forall i :: from <= i < |items| ==> items[i].Text? && items[i].s != []
    ensures r.issues == [] ==> forall i :: 0 <= i < |r.value| ==> r.value[i] != []
    decreases |items| - from
  {
    if from == |items| then Checked([], [])
    else
      var x := RequiredText(items[from], path + [IntToString(from)]);
      var rest := LostFrom(items, path, from + 1);
      assert x.issues + rest.issues == [] <==> x.issues == [] && rest.issues == [];
      Checked(x.issues + rest.issues, [x.value] + rest.value)
  }

  /** `def(array(object({...})), [])`. */
  function GainedListOf(v: Value, key: string): (r: Checked<seq<ItemOutput>>)
    ensures r.issues == [] ==> forall i :: 0 <= i < |r.value| ==> r.value[i].name != []
    ensures Field(v, key).Undefined? ==> r == Checked([], [])
  {
    var x := Default(Field(v, key), List([]));
    if x.List? then ItemsFrom(x.items, [key], 0) else Checked([Issue([key], InvalidType)], [])
  }

  /** `def(array(string([minLength(1)])), [])`. */
  function LostListOf(v: Value, key: string): (r: Checked<seq<string>>)
    ensures r.issues == [] ==> forall i :: 0 <= i < |r.value| ==> r.value[i] != []
    ensures Field(v, key).Undefined? ==> r == Checked([], [])
  {
    var x := Default(Field(v, key), List([]));
    if x.List? then LostFrom(x.items, [key], 0) else Checked([Issue([key], InvalidType)], [])
  }

  /** `safeParse(logSchema, v)`: the fields in their order, each with its
      default and its checks. */
  function ParseLog(v: Value): Checked<LogOutput> {
    if !v.Obj? then
      Checked([Issue([], InvalidType)], LogOutput("", "", DateObject(0), "", "", "game", 0, 0, 0, 0, 0, 0, "",
        DMOutput("", "", None, None), false, None, [], [], [], []))
    else
    var id := TextOf(Default(Field(v, "id"), Text("")), ["id"]);
    var name := RequiredText(Field(v, "name"), ["name"]);
    var date := DateOf(Field(v, "date"), ["date"]);
    var characterId := TextOf(Default(Field(v, "characterId"), Text("")), ["characterId"]);
    var characterName := TextOf(Default(Field(v, "characterName"), Text("")), ["characterName"]);
    var logType := LogTypeOf(Default(Field(v, "type"), Text("game")), ["type"]);
    var experience := NumberOf(Default(Field(v, "experience"), Num(0)), ["experience"], MustBeNumber, false);
    var acp := NumberOf(Default(Field(v, "acp"), Num(0)), ["acp"], InvalidType, true);
    var tcp := NumberOf(Default(Field(v, "tcp"), Num(0)), ["tcp"], MustBeNumber, false);
    var level := NumberOf(Default(Field(v, "level"), Num(0)), ["level"], InvalidType, true);
    var gold := NumberOf(Default(Field(v, "gold"), Num(0)), ["gold"], MustBeNumber, false);
    var dtd := NumberOf(Default(Field(v, "dtd"), Num(0)), ["dtd"], MustBeNumber, false);
    var description := TextOf(Default(Field(v, "description"), Text("")), ["description"]);
    var dm := ParseDMFields(Field(v, "dm"), ["dm"], true, false);
    var isDmLog := BoolOf(Default(Field(v, "is_dm_log"), Bool(false)), ["is_dm_log"]);
    var appliedDate := NullableDateOf(Default(Field(v, "applied_date"), Null), ["applied_date"]);
    var mig := GainedListOf(v, "magic_items_gained");
    var mil := LostListOf(v, "magic_items_lost");
    var sag := GainedListOf(v, "story_awards_gained");
    var sal := LostListOf(v, "story_awards_lost");
    Checked(
      id.issues + name.issues + date.issues + characterId.issues + characterName.issues
      + logType.issues + experience.issues + acp.issues + tcp.issues + level.issues + gold.issues
      + dtd.issues + description.issues + dm.issues + isDmLog.issues + appliedDate.issues
      + mig.issues + mil.issues + sag.issues + sal.issues,
      LogOutput(id.value, name.value, date.value, characterId.value, characterName.value,
        logType.value, experience.value, acp.value, tcp.value, level.value, gold.value, dtd.value,
        description.value, dm.value, isDmLog.value, appliedDate.value,
        mig.value, mil.value, sag.value, sal.value))
  }

  /** What every parsed log satisfies. */
  lemma ParsedLogConstraints(v: Value)
    requires ParseLog(v).issues == []
    ensures var out := ParseLog(v).value;
      && out.name != [] && out.acp >= 0 && out.level >= 0
      && (out.logType == "game" || out.logType == "nongame")
      && (out.date.DateText? ==> IsDateString(out.date.text))
      && (out.appliedDate.Some? && out.appliedDate.value.DateText? ==> IsDateString(out.appliedDate.value.text))
      && (forall i :: 0 <= i < |out.magicItemsGained| ==> out.magicItemsGained[i].name != [])
      && (forall i :: 0 <= i < |out.storyAwardsGained| ==> out.storyAwardsGained[i].name != [])
      && (forall i :: 0 <= i < |out.magicItemsLost| ==> out.magicItemsLost[i] != [])
      && (forall i :: 0 <= i < |out.storyAwardsLost| ==> out.storyAwardsLost[i] != [])
  {
  }

  /** A log with only a name, a date and an empty DM object parses, and
      every other field takes its default. */
  lemma LogDefaults(v: Value, name: string, date: string)
    requires v.Obj? && name != [] && IsDateString(date)
    requires Field(v, "name") == Text(name) && Field(v, "date") == Text(date) && Field(v, "dm") == Obj(map[])
    requires && Field(v, "id").Undefined? && Field(v, "characterId").Undefined? && Field(v, "characterName").Undefined?
             && Field(v, "type").Undefined? && Field(v, "experience").Undefined? && Field(v, "acp").Undefined?
             && Field(v, "tcp").Undefined? && Field(v, "level").Undefined? && Field(v, "gold").Undefined?
             && Field(v, "dtd").Undefined? && Field(v, "description").Undefined? && Field(v, "is_dm_log").Undefined?
             && Field(v, "applied_date").Undefined? && Field(v, "magic_items_gained").Undefined?
             && Field(v, "magic_items_lost").Undefined? && Field(v, "story_awards_gained").Undefined?
             && Field(v, "story_awards_lost").Undefined?
    ensures ParseLog(v).issues == []
    ensures ParseLog(v).value == LogOutput("", name, DateText(date), "", "", "game", 0, 0, 0, 0, 0, 0, "",
           DMOutput("", "", None, Some("")), false, None, [], [], [], [])
  {
    assert ParseDMFields(Obj(map[]), ["dm"], true, false) == Checked([], DMOutput("", "", None, Some("")));
  }

  /** A negative ACP or level, a missing or empty name, and a date outside
      the grammar each raise their issue. */
  lemma LogRejections(v: Value)
    ensures Field(v, "acp").Num? && Field(v, "acp").n < 0 ==> Issue(["acp"], NonNegative) in ParseLog(v).issues
    ensures Field(v, "level").Num? && Field(v, "level").n < 0 ==> Issue(["level"], NonNegative) in ParseLog(v).issues
    ensures !v.Obj? ==> ParseLog(v).issues == [Issue([], InvalidType)]
    ensures v.Obj? && Field(v, "name").Undefined? ==> Issue(["name"], InvalidType) in ParseLog(v).issues
    ensures Field(v, "name") == Text("") ==> Issue(["name"], Required) in ParseLog(v).issues
    ensures Field(v, "date").Text? && !IsDateString(Field(v, "date").s) ==> Issue(["date"], InvalidDateFormat) in ParseLog(v).issues
  {
    if Field(v, "acp").Num? && Field(v, "acp").n < 0 { NegativeRejected(v, "acp"); }
    if Field(v, "level").Num? && Field(v, "level").n < 0 { NegativeRejected(v, "level"); }
    if v.Obj? && (Field(v, "name").Undefined? || Field(v, "name") == Text("")) { NameRejected(v); }
    if Field(v, "date").Text? && !IsDateString(Field(v, "date").s) { DateRejected(v); }
  }

  lemma NegativeRejected(v: Value, key: string)
    requires key == "acp" || key == "level"
    requires Field(v, key).Num? && Field(v, key).n < 0
    ensures Issue([key], NonNegative) in ParseLog(v).issues
  {
    var n := NumberOf(Default(Field(v, key), Num(0)), [key], InvalidType, true);
    assert n.issues == [Issue([key], NonNegative)];
  }

  lemma NameRejected(v: Value)
    requires v.Obj?
    ensures Field(v, "name").Undefined? ==> Issue(["name"], InvalidType) in ParseLog(v).issues
    ensures Field(v, "name") == Text("") ==> Issue(["name"], Required) in ParseLog(v).issues
  {
    var name := RequiredText(Field(v, "name"), ["name"]);
    assert Field(v, "name").Undefined? ==> name.issues == [Issue(["name"], InvalidType)];
  }

  lemma DateRejected(v: Value)
    requires Field(v, "date").Text? && !IsDateString(Field(v, "date").s)
    ensures Issue(["date"], InvalidDateFormat) in ParseLog(v).issues
  {
    var date := DateOf(Field(v, "date"), ["date"]);
    assert date.issues == [Issue(["date"], InvalidDateFormat)];
  }

  // ---------------------------------------------------------------------
  // newCharacterSchema (schemas.ts:85-92)

  datatype CharacterOutput = CharacterOutput(name: string, campaign: string, race: string, className: string,
                                             characterSheetUrl: string, imageUrl: string)

  /** `def(string([url()]), "")`, given what `url()` accepts. */
  function UrlOf(v: Value, path: seq<string>, isUrl: string -> bool): (r: Checked<string>)
    ensures r.issues == [] <==> Default(v, Text("")).Text? && isUrl(Default(v, Text("")).s)
  {
    var x := Default(v, Text(""));
    if !x.Text? then Checked([Issue(path, InvalidType)], "")
    else if !isUrl(x.s) then Checked([Issue(path, InvalidUrl)], x.s)
    else Checked([], x.s)
  }

  /** `safeParse(newCharacterSchema, v)`. */
  function ParseNewCharacter(v: Value, isUrl: string -> bool): Checked<CharacterOutput> {
    if !v.Obj? then Checked([Issue([], InvalidType)], CharacterOutput("", "", "", "", "", ""))
    else
    var name := RequiredText(Field(v, "name"), ["name"]);
    var campaign := RequiredText(Field(v, "campaign"), ["campaign"]);
    var race := TextOf(Default(Field(v, "race"), Text("")), ["race"]);
    var className := TextOf(Default(Field(v, "class"), Text("")), ["class"]);
    var sheet := UrlOf(Field(v, "character_sheet_url"), ["character_sheet_url"], isUrl);
    var image := UrlOf(Field(v, "image_url"), ["image_url"], isUrl);
    Checked(name.issues + campaign.issues + race.issues + className.issues + sheet.issues + image.issues,
      CharacterOutput(name.value, campaign.value, race.value, className.value, sheet.value, image.value))
  }

  /** A new character needs a non-empty name and campaign. A missing URL
      takes the default "", which must itself pass `url()`. */
  lemma NewCharacterRules(v: Value, isUrl: string -> bool)
    ensures ParseNewCharacter(v, isUrl).issues == [] ==>
      var out := ParseNewCharacter(v, isUrl).value;
      out.name != [] && out.campaign != [] && isUrl(out.characterSheetUrl) && isUrl(out.imageUrl)
      && (Field(v, "race").Undefined? ==> out.race == "")
    ensures !v.Obj? ==> ParseNewCharacter(v, isUrl).issues == [Issue([], InvalidType)]
    ensures v.Obj? && Field(v, "character_sheet_url").Undefined? && !isUrl("") ==>
      Issue(["character_sheet_url"], InvalidUrl) in ParseNewCharacter(v, isUrl).issues
  {
  }

  // ---------------------------------------------------------------------
  // valibotResolver (schemas.ts:97-114)

  /** `flatten(...).nested` keys: the dotted path of an issue. */
  function DotPath(path: seq<string>): string { Join(path, ".") }

  /** The messages of the issues at the dotted path `key`, in order. */
  function MessagesAt(issues: seq<Issue>, key: string): (r: seq<string>)
    ensures |r| <= |issues|
    ensures forall m :: m in r ==> exists i :: i in issues && i.path != [] && DotPath(i.path) == key && i.message == m
    ensures r == [] <==> forall i :: i in issues ==> i.path == [] || DotPath(i.path) != key
  {
    if issues == [] then []
    else
      var rest := MessagesAt(issues[1..], key);
      assert forall i :: i in issues[1..] ==> i in issues;
      if issues[0].path != [] && DotPath(issues[0].path) == key then [issues[0].message] + rest else rest
  }

  /** The keys of `errors`: every nested dotted path. */
  function NestedKeys(issues: seq<Issue>): (r: set<string>)
    ensures forall k :: k in r <==> exists i :: i in issues && i.path != [] && DotPath(i.path) == k
  {
    set i | i in issues && i.path != [] :: DotPath(i.path)
  }

  /** The resolver's answer: the parsed data and no errors, or the original
      values with a message per field. */
  datatype Resolution<T> = Valid(data: T) | Invalid(values: Value, errors: map<string, string>)

  function Resolve<T>(v: Value, parsed: Checked<T>): (r: Resolution<T>)
    ensures parsed.issues == [] <==> r.Valid?
    ensures r.Valid? ==> r.data == parsed.value
    ensures r.Invalid? ==> r.values == v && r.errors.Keys == NestedKeys(parsed.issues)
    ensures r.Invalid? ==> forall k :: k in r.errors ==> r.errors[k] == Join(MessagesAt(parsed.issues, k), ", ")
  {
    if parsed.issues == [] then Valid(parsed.value)
    else Invalid(v, map k | k in NestedKeys(parsed.issues) :: Join(MessagesAt(parsed.issues, k), ", "))
  }

  /** A field's error splits back into its messages when none holds a comma. */
  lemma ResolvedMessages<T>(v: Value, parsed: Checked<T>, k: string)
    requires Resolve(v, parsed).Invalid? && k in Resolve(v, parsed).errors
    requires forall i, j :: i in parsed.issues && 0 <= j < |i.message| ==> i.message[j] != ','
    ensures MessagesAt(parsed.issues, k) != []
    ensures SplitOn(Resolve(v, parsed).errors[k], ", ") == MessagesAt(parsed.issues, k)
  {
    var ms := MessagesAt(parsed.issues, k);
    var i :| i in parsed.issues && i.path != [] && DotPath(i.path) == k;
    assert ms != [];
    forall a, j | 0 <= a < |ms| && 0 <= j < |ms[a]|
      ensures ms[a][j] != ", "[0]
    {
      assert ms[a] in ms;
    }
    SplitOnJoin(ms, ", ");
  }
}
