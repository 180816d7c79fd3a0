/** The character and log tables (src/components/table.tsx): the running
    level of a character's logs, the documents handed to the search index,
    and the filtering and ordering of the rows shown. The search index
    itself is outside the model: its hits are given as a set of ids. */
module Table {
  import opened Strings
  import Sorting

  /** A magic item or story award attached to a log. */
  datatype LogItem = LogItem(id: string, name: string, logLostId: Option<string>)

  datatype Log = Log(
    id: string, name: string, date: int,
    magicItemsGained: seq<LogItem>, magicItemsLost: seq<LogItem>,
    storyAwardsGained: seq<LogItem>, storyAwardsLost: seq<LogItem>)

  /** An entry of `log_levels`: the levels a log grants. */
  datatype LogLevel = LogLevel(id: string, levels: int)

  datatype Character = Character(
    id: string, name: string, campaign: Option<string>, race: Option<string>, className: Option<string>,
    tier: int, totalLevel: int, logs: seq<Log>, logLevels: seq<LogLevel>)

  /** `s || ""`: a missing or empty string becomes the empty string. */
  function OrEmpty(s: Option<string>): (r: string)
    ensures s.Some? ==> r == s.value
    ensures s.None? ==> r == []
  {
    match s
    case None => []
    case Some(v) => v
  }

  // ---------------------------------------------------------------------
  // The running level (table.tsx:232-246)

  /** `log_levels.find(gl => gl.id === id)`: the first entry with that id. */
  function FindLevel(levels: seq<LogLevel>, id: string): (r: Option<LogLevel>)
    ensures r.Some? ==> r.value in levels && r.value.id == id
    ensures r.None? ==> forall k :: 0 <= k < |levels| ==> levels[k].id != id
  {
    if levels == [] then None
    else if levels[0].id == id then Some(levels[0])
    else FindLevel(levels[1..], id)
  }

  /** `find` stops at the first entry with the id: when entry `k` has the
      id and none before it does, that entry is the one found. */
  lemma {:induction false} FindLevelFirst(levels: seq<LogLevel>, id: string, k: nat)
    requires k < |levels| && levels[k].id == id
    requires forall j :: 0 <= j < k ==> levels[j].id != id
    ensures FindLevel(levels, id) == Some(levels[k])
  {
    if k > 0 {
      FindLevelFirst(levels[1..], id, k - 1);
    }
  }

  /** `level_gained?.levels || 0`. */
  function LevelGained(levels: seq<LogLevel>, id: string): (g: int)
    ensures FindLevel(levels, id).None? ==> g == 0
    ensures FindLevel(levels, id).Some? ==> g == FindLevel(levels, id).value.levels
  {
    match FindLevel(levels, id)
    case None => 0
    case Some(l) => l.levels
  }

  /** The level reached after the given logs, starting from 1. */
  function LevelAfter(logs: seq<Log>, levels: seq<LogLevel>): int
  {
    if logs == [] then 1
    else LevelAfter(logs[..|logs| - 1], levels) + LevelGained(levels, logs[|logs| - 1].id)
  }

  datatype LogRow = LogRow(log: Log, levelGained: int, totalLevel: int)

  /** The `logs` memo: every log with the levels it grants and the running
      total through it. */
  method LogRows(character: Option<Character>) returns (rows: seq<LogRow>)
    ensures character.None? ==> rows == []
    ensures character.Some? ==> |rows| == |character.value.logs|
    ensures character.Some? ==> forall i :: 0 <= i < |rows| ==>
      var c := character.value;
      && rows[i].log == c.logs[i]
      && rows[i].levelGained == LevelGained(c.logLevels, c.logs[i].id)
      && rows[i].totalLevel == LevelAfter(c.logs[..i + 1], c.logLevels)
  {
    if character.None? {
      return [];
    }
    var c := character.value;
    var level := 1;
    rows := [];
    var i := 0;
    while i < |c.logs|
      invariant 0 <= i <= |c.logs| && |rows| == i
      invariant level == LevelAfter(c.logs[..i], c.logLevels)
      invariant forall k :: 0 <= k < i ==>
        && rows[k].log == c.logs[k]
        && rows[k].levelGained == LevelGained(c.logLevels, c.logs[k].id)
        && rows[k].totalLevel == LevelAfter(c.logs[..k + 1], c.logLevels)
    {
      var log := c.logs[i];
      var found := FindLevel(c.logLevels, log.id);
      if found.Some? {
        level := level + found.value.levels;
      }
      assert c.logs[..i + 1][..i] == c.logs[..i];
      rows := rows + [LogRow(log, LevelGained(c.logLevels, log.id), level)];
      i := i + 1;
    }
  }

  /** With no negative entry in `log_levels` the running total never
      decreases along the list. */
  lemma {:induction false} LevelAfterMonotone(logs: seq<Log>, levels: seq<LogLevel>, i: nat, j: nat)
    requires i <= j <= |logs|
    requires forall k :: 0 <= k < |levels| ==> levels[k].levels >= 0
    ensures LevelAfter(logs[..i], levels) <= LevelAfter(logs[..j], levels)
    decreases j - i
  {
    if i < j {
      LevelAfterMonotone(logs, levels, i, j - 1);
      assert logs[..j][..j - 1] == logs[..j - 1];
    }
  }

  // ---------------------------------------------------------------------
  // Search-index documents (table.tsx:46-66, 248-255)

  function Names(items: seq<LogItem>): (r: seq<string>)
    ensures |r| == |items| && forall k :: 0 <= k < |items| ==> r[k] == items[k].name
  {
    seq(|items|, k requires 0 <= k < |items| => items[k].name)
  }

  /** A gained item counts towards a character's magic items unless it has
      been lost (`!magicItem.logLostId`: a missing or empty id). */
  predicate Kept(item: LogItem) {
    item.logLostId.None? || item.logLostId.value == []
  }

  /** The names the reduce of table.tsx:57-62 collects: for each log in turn,
      the names of its gained magic items that were not lost. */
  function KeptNames(logs: seq<Log>): seq<string>
  {
    if logs == [] then []
    else KeptNames(logs[..|logs| - 1]) + KeptOf(logs[|logs| - 1].magicItemsGained)
  }

  function KeptOf(items: seq<LogItem>): (r: seq<string>)
    ensures |r| <= |items|
  {
    if items == [] then []
    else (if Kept(items[0]) then [items[0].name] else []) + KeptOf(items[1..])
  }

  /** A name is collected exactly when some log gained a kept item of that name. */
  lemma {:induction false} KeptOfMembers(items: seq<LogItem>, n: string)
    ensures n in KeptOf(items) <==> exists k :: 0 <= k < |items| && Kept(items[k]) && items[k].name == n
  {
    if items != [] {
      KeptOfMembers(items[1..], n);
      if n in KeptOf(items[1..]) {
        var k :| 0 <= k < |items[1..]| && Kept(items[1..][k]) && items[1..][k].name == n;
        assert Kept(items[k + 1]) && items[k + 1].name == n;
      }
      if exists k :: 0 <= k < |items| && Kept(items[k]) && items[k].name == n {
        var k :| 0 <= k < |items| && Kept(items[k]) && items[k].name == n;
        if k > 0 { assert items[1..][k - 1] == items[k]; }
      }
    }
  }

  lemma {:induction false} KeptNamesMembers(logs: seq<Log>, n: string)
    ensures n in KeptNames(logs) <==>
      exists i :: 0 <= i < |logs| && n in KeptOf(logs[i].magicItemsGained)
  {
    if logs != [] {
      var init := logs[..|logs| - 1];
      KeptNamesMembers(init, n);
      if n in KeptNames(init) {
        var i :| 0 <= i < |init| && n in KeptOf(init[i].magicItemsGained);
        assert init[i] == logs[i];
      }
      if exists i :: 0 <= i < |logs| && n in KeptOf(logs[i].magicItemsGained) {
        var i :| 0 <= i < |logs| && n in KeptOf(logs[i].magicItemsGained);
        if i < |init| { assert init[i] == logs[i]; }
      }
    }
  }

  /** The inner loop of the reduce: the kept names of one log, in order. */
  method CollectKeptOf(items: seq<LogItem>) returns (pushed: seq<string>)
    ensures pushed == KeptOf(items)
  {
    var j := 0;
    pushed := [];
    while j < |items|
      invariant 0 <= j <= |items| && pushed + KeptOf(items[j..]) == KeptOf(items)
    {
      assert items[j..][1..] == items[j + 1..];
      if Kept(items[j]) {
        pushed := pushed + [items[j].name];
      }
      j := j + 1;
    }
    assert items[j..] == [];
  }

  /** The reduce itself: pushes the kept names log after log into `acc`. */
  method CollectKept(logs: seq<Log>) returns (acc: seq<string>)
    ensures acc == KeptNames(logs)
  {
    acc := [];
    var i := 0;
    while i < |logs|
      invariant 0 <= i <= |logs| && acc == KeptNames(logs[..i])
    {
      var pushed := CollectKeptOf(logs[i].magicItemsGained);
      assert logs[..i + 1][..i] == logs[..i];
      acc := acc + pushed;
      i := i + 1;
    }
    assert logs[..i] == logs;
  }

  datatype CharacterDoc = CharacterDoc(
    characterId: string, characterName: string, campaign: string, race: string, className: string,
    tier: string, level: string, magicItems: string)

  /** The document indexed for one character. */
  function CharacterDocOf(c: Character): (d: CharacterDoc)
    ensures d.characterId == c.id && d.characterName == c.name
    ensures d.campaign == OrEmpty(c.campaign) && d.race == OrEmpty(c.race) && d.className == OrEmpty(c.className)
    ensures d.tier == "T" + IntToString(c.tier) && d.level == "L" + IntToString(c.totalLevel)
    ensures d.magicItems == Join(KeptNames(c.logs), ", ")
  {
    CharacterDoc(c.id, c.name, OrEmpty(c.campaign), OrEmpty(c.race), OrEmpty(c.className),
      "T" + IntToString(c.tier), "L" + IntToString(c.totalLevel), Join(KeptNames(c.logs), ", "))
  }

  /** The `indexed` memo of the characters table: one document per
      character, built with the imperative reduce. */
  method IndexCharacters(characters: seq<Character>) returns (docs: seq<CharacterDoc>)
    ensures |docs| == |characters|
    ensures forall i :: 0 <= i < |characters| ==> docs[i] == CharacterDocOf(characters[i])
  {
    docs := [];
    var i := 0;
    while i < |characters|
      invariant 0 <= i <= |characters| && |docs| == i
      invariant forall k :: 0 <= k < i ==> docs[k] == CharacterDocOf(characters[k])
    {
      var d := BuildCharacterDoc(characters[i]);
      docs := docs + [d];
      i := i + 1;
    }
  }

  /** The object the `indexed` memo builds for one character. */
  method BuildCharacterDoc(c: Character) returns (d: CharacterDoc)
    ensures d == CharacterDocOf(c)
  {
    var kept := CollectKept(c.logs);
    d := CharacterDoc(c.id, c.name, OrEmpty(c.campaign), OrEmpty(c.race), OrEmpty(c.className),
      "T" + IntToString(c.tier), "L" + IntToString(c.totalLevel), Join(kept, ", "));
  }

  datatype LogDoc = LogDoc(logId: string, logName: string, magicItems: string, storyAwards: string)

  /** The document indexed for one log. */
  function LogDocOf(log: Log): (d: LogDoc)
    ensures d.logId == log.id && d.logName == log.name
    ensures d.magicItems == Join(Names(log.magicItemsGained) + Names(log.magicItemsLost), ", ")
    ensures d.storyAwards == Join(Names(log.storyAwardsGained) + Names(log.storyAwardsLost), ", ")
  {
    LogDoc(log.id, log.name,
      Join(Names(log.magicItemsGained) + Names(log.magicItemsLost), ", "),
      Join(Names(log.storyAwardsGained) + Names(log.storyAwardsLost), ", "))
  }

  predicate NoComma(names: seq<string>) {
    forall k, j :: 0 <= k < |names| && 0 <= j < |names[k]| ==> names[k][j] != ','
  }

  /** When no item name contains a comma, the document's magic-item text
      splits back into the gained names followed by the lost names. */
  lemma LogDocMagicItems(log: Log)
    requires var names := Names(log.magicItemsGained) + Names(log.magicItemsLost);
      names != [] && NoComma(names)
    ensures SplitOn(LogDocOf(log).magicItems, ", ") == Names(log.magicItemsGained) + Names(log.magicItemsLost)
  {
    SplitOnJoin(Names(log.magicItemsGained) + Names(log.magicItemsLost), ", ");
  }

  /** The same for a character's kept magic items. */
  lemma CharacterDocMagicItems(c: Character)
    requires KeptNames(c.logs) != [] && NoComma(KeptNames(c.logs))
    ensures SplitOn(CharacterDocOf(c).magicItems, ", ") == KeptNames(c.logs)
  {
    SplitOnJoin(KeptNames(c.logs), ", ");
  }

  // ---------------------------------------------------------------------
  // Filtering and ordering (table.tsx:73-95, 272-289)

  /** `a.total_level - b.total_level || a.name.localeCompare(b.name)`. */
  function CharacterKey(c: Character): Sorting.Key { Sorting.Key(c.totalLevel, c.name) }

  /** `a.date.getTime() - b.date.getTime()`. */
  function LogKey(row: LogRow): Sorting.Key { Sorting.Key(row.log.date, []) }

  function FilterCharacters(cs: seq<Character>, hits: set<string>): (r: seq<Character>)
    ensures multiset(r) <= multiset(cs)
    ensures forall c :: c in r <==> c in cs && c.id in hits
  {
    if cs == [] then []
    else
      assert cs == [cs[0]] + cs[1..];
      (if cs[0].id in hits then [cs[0]] else []) + FilterCharacters(cs[1..], hits)
  }

  function FilterLogs(rows: seq<LogRow>, hits: set<string>): (r: seq<LogRow>)
    ensures multiset(r) <= multiset(rows)
    ensures forall x :: x in r <==> x in rows && x.log.id in hits
  {
    if rows == [] then []
    else
      assert rows == [rows[0]] + rows[1..];
      (if rows[0].log.id in hits then [rows[0]] else []) + FilterLogs(rows[1..], hits)
  }

  /** The characters shown: those the index found when the query is longer
      than one character, all of them otherwise, in ascending order of
      level and then name. */
  function CharacterResults(cs: seq<Character>, search: string, hits: set<string>): (r: seq<Character>)
    ensures |search| > 1 ==> multiset(r) == multiset(FilterCharacters(cs, hits))
    ensures |search| <= 1 ==> multiset(r) == multiset(cs)
    ensures multiset(r) <= multiset(cs)
  {
    if cs == [] then []
    else if |search| > 1 then Sorting.SortBy(FilterCharacters(cs, hits), CharacterKey)
    else Sorting.SortBy(cs, CharacterKey)
  }

  lemma CharacterResultsOrdered(cs: seq<Character>, search: string, hits: set<string>)
    ensures Sorting.SortedBy(CharacterResults(cs, search, hits), CharacterKey)
  {
    if cs != [] {
      if |search| > 1 { Sorting.SortBySorted(FilterCharacters(cs, hits), CharacterKey); }
      else { Sorting.SortBySorted(cs, CharacterKey); }
    }
  }

  /** The logs shown, filtered the same way and in ascending date order. */
  function LogResults(rows: seq<LogRow>, search: string, hits: set<string>): (r: seq<LogRow>)
    ensures |search| > 1 ==> multiset(r) == multiset(FilterLogs(rows, hits))
    ensures |search| <= 1 ==> multiset(r) == multiset(rows)
    ensures multiset(r) <= multiset(rows)
  {
    if rows == [] then []
    else if |search| > 1 then Sorting.SortBy(FilterLogs(rows, hits), LogKey)
    else Sorting.SortBy(rows, LogKey)
  }

  lemma LogResultsOrdered(rows: seq<LogRow>, search: string, hits: set<string>)
    ensures Sorting.SortedBy(LogResults(rows, search, hits), LogKey)
    ensures forall i, j :: 0 <= i < j < |LogResults(rows, search, hits)| ==>
      LogResults(rows, search, hits)[i].log.date <= LogResults(rows, search, hits)[j].log.date
  {
    if rows != [] {
      if |search| > 1 { Sorting.SortBySorted(FilterLogs(rows, hits), LogKey); }
      else { Sorting.SortBySorted(rows, LogKey); }
    }
  }
}
