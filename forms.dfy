/** The business rules of the two log forms (src/components/forms.tsx):
    the checks run before a submission, the season a log is shown under,
    the bound on the level input, the edits of the item lists, and the
    values a DM log is forced to. */
module Forms {
  import opened Strings

  // ---------------------------------------------------------------------
  // Season and level bounds

  /** The season the form opens on: 1 when the log has experience, else 8
      when it has advancement checkpoints, else 9. */
  function Season(experience: int, acp: int): (s: int)
    ensures s == 1 || s == 8 || s == 9
    ensures s == 1 <==> experience != 0
    ensures s == 8 <==> experience == 0 && acp != 0
    ensures s == 9 <==> experience == 0 && acp == 0
  {
    if experience != 0 then 1 else if acp != 0 then 8 else 9
  }

  /** Which of the two forms: a character's log (with the character's
      current total level, if the character is known) or a DM log. */
  datatype FormKind = CharacterLog(totalLevel: Option<int>) | DMLog

  /** The `max` of the level input. */
  function LevelInputMax(kind: FormKind, oldLevel: int): (m: int)
    ensures kind.DMLog? ==> m == 1
    ensures kind.CharacterLog? ==> m >= oldLevel
    ensures kind.CharacterLog? && kind.totalLevel.Some? ==> m >= 20 - kind.totalLevel.value
    ensures kind.CharacterLog? ==> m == oldLevel || m == (if kind.totalLevel.Some? then 20 - kind.totalLevel.value else 19)
  {
    match kind
    case DMLog => 1
    case CharacterLog(total) =>
      var cap := if total.Some? then 20 - total.value else 19;
      if oldLevel > cap then oldLevel else cap
  }

  // ---------------------------------------------------------------------
  // The checks of a submission

  /** What a submit handler does: return without submitting and without an
      error, return after setting an error on a field, or submit. */
  datatype Verdict = Ignored | Rejected(field: string, message: string) | Submitted

  const AcpAtCap := "ACP cannot be gained at level 20."
  const LevelAboveCap := "Character cannot exceed level 20."

  /** The values the character-log handler reads. `activeName` is the name
      of the focused input, when it has one. */
  datatype LogSubmission = LogSubmission(
    activeName: Option<string>, dmName: string, dmDci: Option<string>,
    totalLevel: int, oldAcp: int, acp: int, oldLevel: int, level: int)

  /** The checks of the character-log handler, in their order. */
  function LogVerdict(x: LogSubmission): Verdict {
    if x.activeName == Some("dm.name") && x.dmName == [] then Ignored
    else if x.activeName == Some("dm.DCI") && !(x.dmDci.Some? && x.dmDci.value != []) then Ignored
    else if x.totalLevel == 20 && x.acp - x.oldAcp > 0 then Rejected("acp", AcpAtCap)
    else if x.totalLevel + x.level - x.oldLevel > 20 && x.level > 0 then Rejected("level", LevelAboveCap)
    else Submitted
  }

  /** Keys of the focused input that make the handler return silently. */
  predicate IgnoredFocus(x: LogSubmission) {
    || (x.activeName == Some("dm.name") && x.dmName == [])
    || (x.activeName == Some("dm.DCI") && (x.dmDci.None? || x.dmDci.value == []))
  }

  /** A log is submitted exactly when neither cap is broken: no ACP gained
      at level 20, and a positive level never takes the character past 20. */
  lemma LogVerdictIff(x: LogSubmission)
    ensures LogVerdict(x) == Submitted <==>
      && !IgnoredFocus(x)
      && (x.totalLevel == 20 ==> x.acp <= x.oldAcp)
      && (x.level > 0 ==> x.totalLevel + x.level - x.oldLevel <= 20)
    ensures LogVerdict(x).Rejected? ==>
      (LogVerdict(x).field == "acp" && x.totalLevel == 20 && x.acp > x.oldAcp)
      || (LogVerdict(x).field == "level" && x.level > 0 && x.totalLevel + x.level - x.oldLevel > 20)
  {
  }

  /** Any level the input allows for a known character at most level 20
      passes the level check. */
  lemma LevelInputWithinCap(totalLevel: int, oldLevel: int, level: int)
    requires 0 <= totalLevel <= 20 && 0 <= oldLevel
    requires 0 <= level <= LevelInputMax(CharacterLog(Some(totalLevel)), oldLevel)
    ensures !(totalLevel + level - oldLevel > 20 && level > 0)
  {
  }

  const CharacterNotFound := "Character not found"
  const AppliedDateRequired := "Applied date is required if assigned character is entered"
  const CharacterRequired := "Assigned character is required if applied date is entered"

  /** The values the DM-log handler reads: the assigned character's id and
      typed name ("" when empty), the applied date, and the ids of the
      user's characters. */
  datatype DMSubmission = DMSubmission(
    activeName: Option<string>, characterId: string, characterName: string,
    appliedDate: Option<int>, characters: seq<string>)

  /** The checks of the DM-log handler, in their order. */
  function DMVerdict(x: DMSubmission): Verdict {
    if x.activeName == Some("characterName") && x.characterId == [] then Ignored
    else if x.characterId != [] && x.characterId !in x.characters then Rejected("characterId", CharacterNotFound)
    else if x.characterName != [] && x.appliedDate.None? then Rejected("applied_date", AppliedDateRequired)
    else if x.appliedDate.Some? && x.characterId == [] then Rejected("characterId", CharacterRequired)
    else Submitted
  }

  /** A DM log is submitted exactly when its assignment is consistent: a
      given character exists, a typed name comes with an applied date, and
      an applied date comes with a character. So a DM log assigned by name
      is always assigned to one of the user's characters. */
  lemma DMVerdictIff(x: DMSubmission)
    ensures DMVerdict(x) == Submitted <==>
      && !(x.activeName == Some("characterName") && x.characterId == [])
      && (x.characterId != [] ==> x.characterId in x.characters)
      && (x.characterName != [] ==> x.appliedDate.Some?)
      && (x.appliedDate.Some? ==> x.characterId != [])
    ensures DMVerdict(x) == Submitted && x.characterName != [] ==> x.characterId in x.characters
  {
  }

  /** A submit handler with the errors it has set on the form. */
  class FormErrors {
    var errors: map<string, string>

    constructor ()
      ensures errors == map[]
    {
      errors := map[];
    }

    /** Runs a verdict: records the error it sets, and tells whether the
        form goes on to submit. */
    method Handle(v: Verdict) returns (submit: bool)
      modifies this
      ensures submit <==> v == Submitted
      ensures v.Rejected? ==> errors == old(errors)[v.field := v.message]
      ensures !v.Rejected? ==> errors == old(errors)
    {
      if v.Rejected? {
        errors := errors[v.field := v.message];
        return false;
      }
      submit := v == Submitted;
    }
  }

  // ---------------------------------------------------------------------
  // The item lists of a log

  /** A gained magic item or story award as the form edits it. */
  datatype GainedItem = GainedItem(id: string, name: string, description: string)

  /** `filter((_, i) => i !== index)`, walking the positions from `from`. */
  function RemoveFrom<T>(s: seq<T>, index: int, from: nat): (r: seq<T>)
    requires from <= |s|
    ensures from <= index < |s| ==> r == s[from..index] + s[index + 1..]
    ensures !(from <= index < |s|) ==> r == s[from..]
    decreases |s| - from
  {
    if from == |s| then []
    else if from == index then RemoveFrom(s, index, from + 1)
    else [s[from]] + RemoveFrom(s, index, from + 1)
  }

  /** `remove*(index)`: exactly the element at `index` goes, the others keep
      their order; an index outside the list changes nothing. */
  function RemoveAt<T>(s: seq<T>, index: int): (r: seq<T>)
    ensures 0 <= index < |s| ==> r == s[..index] + s[index + 1..]
    ensures !(0 <= index < |s|) ==> r == s
  {
    RemoveFrom(s, index, 0)
  }

  /** `map((item, i) => i === index ? f(item) : item)`, from position `from`. */
  function UpdateFrom<T>(s: seq<T>, index: int, f: T -> T, from: nat): (r: seq<T>)
    requires from <= |s|
    ensures |r| == |s| - from
    ensures forall i :: from <= i < |s| ==> r[i - from] == if i == index then f(s[i]) else s[i]
    decreases |s| - from
  {
    if from == |s| then []
    else [if from == index then f(s[from]) else s[from]] + UpdateFrom(s, index, f, from + 1)
  }

  /** Editing entry `index` changes that entry only. */
  function UpdateAt<T>(s: seq<T>, index: int, f: T -> T): (r: seq<T>)
    ensures |r| == |s|
    ensures 0 <= index < |s| ==> r[index] == f(s[index])
    ensures forall i :: 0 <= i < |s| && i != index ==> r[i] == s[i]
  {
    UpdateFrom(s, index, f, 0)
  }

  function SetName(name: string): GainedItem -> GainedItem {
    (item: GainedItem) => item.(name := name)
  }

  function SetDescription(description: string): GainedItem -> GainedItem {
    (item: GainedItem) => item.(description := description)
  }

  function SetLost(id: string): string -> string {
    _ => id
  }

  /** `add*`: a blank item is appended. */
  function AddGained(s: seq<GainedItem>): (r: seq<GainedItem>)
    ensures r == s + [GainedItem("", "", "")]
  {
    s + [GainedItem("", "", "")]
  }

  /** `addLost*`: the id of the first available item, or "", is appended. */
  function AddLost(lost: seq<string>, available: seq<string>): (r: seq<string>)
    ensures |r| == |lost| + 1 && r[..|lost|] == lost
    ensures r[|lost|] == if available == [] then "" else available[0]
  {
    lost + [if available == [] then "" else available[0]]
  }

  /** Removing the entry just added, gained or lost, gives the list back. */
  lemma RemoveAfterAdd(s: seq<GainedItem>, lost: seq<string>, available: seq<string>)
    ensures RemoveAt(AddGained(s), |s|) == s
    ensures RemoveAt(AddLost(lost, available), |lost|) == lost
  {
    assert AddGained(s)[..|s|] == s;
    assert AddLost(lost, available)[..|lost|] == lost;
  }

  /** Renaming a gained item keeps its id and description and every other
      item, and renaming twice keeps only the last name. */
  lemma RenameTwice(s: seq<GainedItem>, index: int, a: string, b: string)
    requires 0 <= index < |s|
    ensures UpdateAt(UpdateAt(s, index, SetName(a)), index, SetName(b)) == UpdateAt(s, index, SetName(b))
    ensures UpdateAt(s, index, SetName(b))[index] == s[index].(name := b)
  {
    var l := UpdateAt(UpdateAt(s, index, SetName(a)), index, SetName(b));
    var r := UpdateAt(s, index, SetName(b));
    assert forall i :: 0 <= i < |s| ==> l[i] == r[i];
  }

  /** The ids of `available` not yet in `lost`. */
  function NotYetLost(available: seq<string>, lost: seq<string>): (r: seq<string>)
    ensures forall x :: x in r <==> x in available && x !in lost
  {
    if available == [] then []
    else (if available[0] in lost then [] else [available[0]]) + NotYetLost(available[1..], lost)
  }

  /** The "Drop" buttons: never on a DM log, story awards only on a game
      log, and only while some available id is not yet dropped. */
  predicate CanDrop(isDmLog: bool, storyAward: bool, logType: string, available: seq<string>, lost: seq<string>) {
    !isDmLog && (!storyAward || logType == "game") && |NotYetLost(available, lost)| > 0
  }

  lemma CanDropIff(isDmLog: bool, storyAward: bool, logType: string, available: seq<string>, lost: seq<string>)
    ensures CanDrop(isDmLog, storyAward, logType, available, lost) <==>
      !isDmLog && (storyAward ==> logType == "game") && exists x :: x in available && x !in lost
  {
    var r := NotYetLost(available, lost);
    if |r| > 0 { assert r[0] in r; }
  }

  // ---------------------------------------------------------------------
  // The values handed to the schema

  /** The fields of the form values that `onSubmit` overwrites. */
  class LogValues {
    var logType: string
    var isDmLog: bool
    var date: string
    var magicItemsGained: seq<GainedItem>
    var magicItemsLost: seq<string>
    var storyAwardsGained: seq<GainedItem>
    var storyAwardsLost: seq<string>

    constructor (logType: string, isDmLog: bool, date: string)
      ensures this.logType == logType && this.isDmLog == isDmLog && this.date == date
      ensures magicItemsGained == [] && magicItemsLost == [] && storyAwardsGained == [] && storyAwardsLost == []
    {
      this.logType, this.isDmLog, this.date := logType, isDmLog, date;
      magicItemsGained, magicItemsLost, storyAwardsGained, storyAwardsLost := [], [], [], [];
    }

    /** The character-log `onSubmit`: the type and the four lists come from
        the form's state; a new log gets the chosen date. */
    method ApplyLogForm(logType: string, mig: seq<GainedItem>, mil: seq<string>,
                        sag: seq<GainedItem>, sal: seq<string>, isNew: bool, isoDate: string)
      modifies this
      ensures this.logType == logType && isDmLog == old(isDmLog)
      ensures magicItemsGained == mig && magicItemsLost == mil
      ensures storyAwardsGained == sag && storyAwardsLost == sal
      ensures date == if isNew then isoDate else old(date)
    {
      this.logType := logType;
      magicItemsGained := mig;
      magicItemsLost := mil;
      storyAwardsGained := sag;
      storyAwardsLost := sal;
      if isNew { date := isoDate; }
    }

    /** The DM-log `onSubmit`: a DM log is always a game log marked as a DM
        log, and it drops nothing. */
    method ApplyDMForm(mig: seq<GainedItem>, sag: seq<GainedItem>, isNew: bool, isoDate: string)
      modifies this
      ensures logType == "game" && isDmLog
      ensures magicItemsGained == mig && magicItemsLost == []
      ensures storyAwardsGained == sag && storyAwardsLost == []
      ensures date == if isNew then isoDate else old(date)
    {
      logType := "game";
      isDmLog := true;
      magicItemsGained := mig;
      magicItemsLost := [];
      storyAwardsGained := sag;
      storyAwardsLost := [];
      if isNew { date := isoDate; }
    }
  }

  // ---------------------------------------------------------------------
  // Which schema errors are shown

  const IssueFields: seq<string> := ["date", "name", "dm.name", "description", "characterId", "experience", "acp", "tcp", "level", "gold"]

  /** Length of the leading run of digits. */
  function DigitRun(s: string): (n: nat)
    ensures n <= |s|
    ensures forall i :: 0 <= i < n ==> IsDigit(s[i])
    ensures n < |s| ==> !IsDigit(s[n])
  {
    if s == [] || !IsDigit(s[0]) then 0 else 1 + DigitRun(s[1..])
  }

  /** `<list>\.\d+\.name` matches at position `i`. The digits run up to the
      next dot, so the longest run is the only candidate. */
  predicate IndexedNameAt(field: string, list: string, i: nat) {
    var p := list + ".";
    OccursAt(field, p, i) && DigitRun(field[i + |p|..]) > 0
    && OccursAt(field, ".name", i + |p| + DigitRun(field[i + |p|..]))
  }

  /** The unanchored pattern matches somewhere in `field`. */
  predicate IndexedName(field: string, list: string, from: nat)
    decreases |field| - from
  {
    from <= |field| && (IndexedNameAt(field, list, from) || IndexedName(field, list, from + 1))
  }

  /** The schema errors the form shows: those of the listed fields and of
      the names of gained items. */
  predicate ShownError(field: string) {
    field in IssueFields || IndexedName(field, "magic_items_gained", 0) || IndexedName(field, "story_awards_gained", 0)
  }

  /** The error of the name of every gained magic item and story award is
      shown, whatever its index; so is that of a listed field. The errors of
      the lost lists, as a whole or per index, are not. */
  lemma ShownErrors(n: nat)
    ensures ShownError("magic_items_gained" + "." + NatToString(n) + ".name")
    ensures ShownError("story_awards_gained" + "." + NatToString(n) + ".name")
    ensures ShownError("acp")
    ensures !ShownError("magic_items_lost" + "." + NatToString(n))
    ensures !ShownError("story_awards_lost" + "." + NatToString(n))
    ensures !ShownError("magic_items_lost")
    ensures !ShownError("story_awards_lost")
  {
    IndexedItemName("magic_items_gained", n);
    IndexedItemName("story_awards_gained", n);
    assert IssueFields[6] == "acp";
    LostIndexHidden("magic_items_lost", n);
    LostIndexHidden("story_awards_lost", n);
  }

  /** Digits followed by a non-digit form a run of exactly their length. */
  lemma {:induction false} DigitRunOfDigits(d: string, rest: string)
    requires AllDigits(d)
    requires rest == [] || !IsDigit(rest[0])
    ensures DigitRun(d + rest) == |d|
  {
    if d != [] {
      assert (d + rest)[1..] == d[1..] + rest;
      DigitRunOfDigits(d[1..], rest);
    }
  }

  /** `<list>.<n>.name` matches the pattern of its list. */
  lemma IndexedItemName(list: string, n: nat)
    ensures IndexedName(list + "." + NatToString(n) + ".name", list, 0)
  {
    var d := NatToString(n);
    var p := list + ".";
    var f := p + d + ".name";
    assert f[|p|..] == d + ".name";
    DigitRunOfDigits(d, ".name");
    assert f[|p| + |d|..|p| + |d| + 5] == ".name";
    assert f[0..|p|] == p;
    assert IndexedNameAt(f, list, 0);
  }

  /** A field without the letter `n` holds no ".name", so it matches no
      indexed-name pattern. */
  lemma {:induction false} NoNameNotIndexed(field: string, list: string, from: nat)
    requires forall i :: 0 <= i < |field| ==> field[i] != 'n'
    ensures !IndexedName(field, list, from)
    decreases |field| - from
  {
    if from <= |field| {
      NoNameNotIndexedAt(field, list, from);
      NoNameNotIndexed(field, list, from + 1);
    }
  }

  lemma NoNameNotIndexedAt(field: string, list: string, from: nat)
    requires forall i :: 0 <= i < |field| ==> field[i] != 'n'
    ensures !IndexedNameAt(field, list, from)
  {
    var p := list + ".";
    var q := from + |p|;
    if OccursAt(field, p, from) && DigitRun(field[q..]) > 0 {
      var k := q + DigitRun(field[q..]);
      if k + 5 <= |field| {
        NoNameAt(field, k);
      }
    }
  }

  lemma NoNameAt(field: string, k: nat)
    requires k + 5 <= |field|
    requires forall i :: 0 <= i < |field| ==> field[i] != 'n'
    ensures field[k..k + 5] != ".name"
  {
    assert field[k..k + 5][1] != 'n';
  }

  /** A field longer than every listed field and without the letter `n` is
      not shown. */
  lemma HiddenField(field: string)
    requires |field| > 11
    requires forall i :: 0 <= i < |field| ==> field[i] != 'n'
    ensures !ShownError(field)
  {
    assert forall k :: 0 <= k < |IssueFields| ==> |IssueFields[k]| <= 11;
    NoNameNotIndexed(field, "magic_items_gained", 0);
    NoNameNotIndexed(field, "story_awards_gained", 0);
  }

  /** The lost lists' own field and their indexed fields are hidden. */
  lemma LostIndexHidden(list: string, n: nat)
    requires list == "magic_items_lost" || list == "story_awards_lost"
    ensures !ShownError(list)
    ensures !ShownError(list + "." + NatToString(n))
  {
    var d := NatToString(n);
    var f := list + "." + d;
    assert forall i :: 0 <= i < |list| ==> list[i] != 'n';
    HiddenField(list);
    assert forall i :: 0 <= i < |f| ==> f[i] != 'n' by {
      forall i | 0 <= i < |f| ensures f[i] != 'n' {
        if i > |list| { assert f[i] == d[i - |list| - 1]; }
      }
    }
    HiddenField(f);
  }
}
