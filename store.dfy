/** The server actions and DM queries (src/server/actions/log.ts,
    src/server/actions/dm.ts, src/server/actions/character.ts,
    src/server/db/dms.ts) over an in-memory copy of the five tables they
    touch. Each table is a map from a row id to the row; a relation is the
    id of the row it points to. */
module Store {
  import opened Strings

  datatype CharacterRec = CharacterRec(name: string, userId: string)
  datatype LogRec = LogRec(name: string, characterId: Option<string>, dmId: Option<string>)
  datatype DMRec = DMRec(name: string, dci: Option<string>, uid: Option<string>)
  /** A magic item or a story award: the log that granted it and the log
      that dropped it, if any. */
  datatype ItemRec = ItemRec(name: string, logGainedId: string, logLostId: Option<string>)

  datatype Tables = Tables(
    characters: map<string, CharacterRec>,
    logs: map<string, LogRec>,
    dms: map<string, DMRec>,
    magicItems: map<string, ItemRec>,
    storyAwards: map<string, ItemRec>)

  /** The tables after an action, and what the action returned. */
  datatype Outcome<R> = Outcome(tables: Tables, result: R)

  /** `{ id, error }`: exactly one of the two is set on every path but the
      success of a log deletion that belongs to no character. */
  datatype ActionResult = ActionResult(id: Option<string>, error: Option<string>)

  /** JavaScript truthiness of an optional string. */
  predicate Truthy(s: Option<string>) { s.Some? && s.value != [] }

  /** Every relation points at a row that exists. */
  ghost predicate Consistent(t: Tables) {
    && (forall l :: l in t.logs && t.logs[l].characterId.Some? ==> t.logs[l].characterId.value in t.characters)
    && (forall l :: l in t.logs && t.logs[l].dmId.Some? ==> t.logs[l].dmId.value in t.dms)
    && ItemsIn(t.magicItems, t.logs) && ItemsIn(t.storyAwards, t.logs)
  }

  /** Every item points at logs that exist. */
  ghost predicate ItemsIn(items: map<string, ItemRec>, logs: map<string, LogRec>) {
    && (forall k :: k in items ==> items[k].logGainedId in logs)
    && (forall k :: k in items && items[k].logLostId.Some? ==> items[k].logLostId.value in logs)
  }

  // ---------------------------------------------------------------------
  // DM visibility (dms.ts:5-24, 33-64, 73-105)

  /** `character: { userId }` on a log: the log belongs to an existing
      character of that user. */
  predicate LogOwnedBy(t: Tables, l: string, u: string)
    requires l in t.logs
  {
    var c := t.logs[l].characterId;
    c.Some? && c.value in t.characters && t.characters[c.value].userId == u
  }

  /** The logs of a DM. */
  function DMLogs(t: Tables, d: string): (r: set<string>)
    ensures forall l :: l in r <==> l in t.logs && t.logs[l].dmId == Some(d)
  {
    set l | l in t.logs && t.logs[l].dmId == Some(d)
  }

  /** The `where` of all three queries: every log of the DM belongs to the
      user, or the DM is the user's own. */
  predicate VisibleTo(t: Tables, d: string, u: string)
    requires d in t.dms
  {
    (forall l :: l in t.logs && t.logs[l].dmId == Some(d) ==> LogOwnedBy(t, l, u))
    || t.dms[d].uid == Some(u)
  }

  /** `getUserDMs`: the DMs the user may see. */
  function UserDMs(t: Tables, u: string): (r: set<string>)
    ensures forall d :: d in r <==> d in t.dms && VisibleTo(t, d, u)
  {
    set d | d in t.dms && VisibleTo(t, d, u)
  }

  /** `getUserDMsWithLogs`: the same DMs, each with its logs. */
  function UserDMsWithLogs(t: Tables, u: string): (r: map<string, set<string>>)
    ensures r.Keys == UserDMs(t, u)
    ensures forall d :: d in r ==> r[d] == DMLogs(t, d)
  {
    map d | d in UserDMs(t, u) :: DMLogs(t, d)
  }

  /** `getUserDMWithLogs`: that one DM with its logs, when the user may see it. */
  function UserDMWithLogs(t: Tables, u: string, dmId: string): (r: Option<set<string>>)
    ensures r.Some? <==> dmId in UserDMs(t, u)
    ensures r.Some? ==> r.value == DMLogs(t, dmId)
  {
    if dmId in UserDMs(t, u) then Some(DMLogs(t, dmId)) else None
  }

  /** `getUserDMWithLogs` finds a DM exactly when `getUserDMsWithLogs`
      lists it, and with the same logs. */
  lemma DMQueriesAgree(t: Tables, u: string, d: string)
    ensures UserDMWithLogs(t, u, d).Some? <==> d in UserDMsWithLogs(t, u)
    ensures d in UserDMsWithLogs(t, u) ==> UserDMWithLogs(t, u, d).value == UserDMsWithLogs(t, u)[d]
  {
  }

  /** A DM is visible exactly when it exists and either all of its logs
      belong to the user or its `uid` is the user's. */
  lemma VisibleIff(t: Tables, d: string, u: string)
    ensures d in UserDMs(t, u) <==>
      d in t.dms && ((forall l :: l in DMLogs(t, d) ==> LogOwnedBy(t, l, u)) || t.dms[d].uid == Some(u))
  {
  }

  /** `every` over no logs holds: a DM without logs is visible to everyone. */
  lemma DMWithoutLogsVisible(t: Tables, d: string, u: string)
    requires d in t.dms && DMLogs(t, d) == {}
    ensures d in UserDMs(t, u)
  {
    assert forall l :: l in t.logs ==> t.logs[l].dmId != Some(d) by {
      forall l | l in t.logs ensures t.logs[l].dmId != Some(d) {
        assert l !in DMLogs(t, d);
      }
    }
  }

  /** A DM with a log of some other character's is hidden from a user who
      is not its `uid`. */
  lemma DMWithForeignLogHidden(t: Tables, d: string, u: string, l: string)
    requires d in t.dms && l in DMLogs(t, d) && !LogOwnedBy(t, l, u) && t.dms[d].uid != Some(u)
    ensures d !in UserDMs(t, u)
  {
  }

  // ---------------------------------------------------------------------
  // deleteLog (log.ts:8-67)

  const NotAuthenticated := "Not authenticated"
  const NotAuthorized := "Not authorized"
  /** The message of the error `tx.log.delete` throws for a missing row. */
  const RecordNotFound := "Record to delete does not exist."

  /** `updateMany({ where: { logLostId }, data: { logLostId: null } })`. */
  function ClearLost(items: map<string, ItemRec>, logId: string): (r: map<string, ItemRec>)
    ensures r.Keys == items.Keys
    ensures forall k :: k in r ==> r[k].logLostId != Some(logId)
    ensures forall k :: k in r ==> r[k] == if items[k].logLostId == Some(logId) then items[k].(logLostId := None) else items[k]
  {
    map k | k in items :: if items[k].logLostId == Some(logId) then items[k].(logLostId := None) else items[k]
  }

  /** `deleteMany({ where: { logGainedId } })` for one log or a set of logs. */
  function DropGained(items: map<string, ItemRec>, logIds: set<string>): (r: map<string, ItemRec>)
    ensures forall k :: k in r <==> k in items && items[k].logGainedId !in logIds
    ensures forall k :: k in r ==> r[k] == items[k]
  {
    map k | k in items && items[k].logGainedId !in logIds :: items[k]
  }

  /** The checks of log.ts:20-28: the id of the owning character when the
      log has one, or the error. */
  function AuthorizeLog(t: Tables, logId: string, u: string): (r: Result<Option<string>>)
    ensures r.Err? ==> r.error == NotAuthorized
  {
    if logId in t.logs && Truthy(t.logs[logId].characterId) then
      var c := t.logs[logId].characterId.value;
      if c in t.characters && t.characters[c].userId == u then Ok(Some(c)) else Err(NotAuthorized)
    else if logId in t.logs && t.logs[logId].dmId.Some? && t.logs[logId].dmId.value in t.dms
         && t.dms[t.logs[logId].dmId.value].uid != Some(u) then Err(NotAuthorized)
    else Ok(None)
  }

  /** `deleteLog`: the checks, then the four item updates and the log's
      deletion in one transaction that a thrown error rolls back. */
  function DeleteLogSpec(t: Tables, logId: string, userId: Option<string>): Outcome<ActionResult> {
    if !Truthy(userId) then Outcome(t, ActionResult(None, Some(NotAuthenticated)))
    else
      match AuthorizeLog(t, logId, userId.value)
      case Err(e) => Outcome(t, ActionResult(None, Some(e)))
      case Ok(owner) =>
        if logId !in t.logs then Outcome(t, ActionResult(None, Some(RecordNotFound)))
        else
          var after := Tables(t.characters, t.logs - {logId}, t.dms,
            DropGained(ClearLost(t.magicItems, logId), {logId}),
            DropGained(ClearLost(t.storyAwards, logId), {logId}));
          Outcome(after, ActionResult(owner, None))
  }

  /** A failed deletion changes nothing, a missing user is refused first,
      and a successful one was authorised: the log's character belongs to
      the user, or the log has no character and its DM, if any, is the user's. */
  lemma DeleteLogGuards(t: Tables, logId: string, userId: Option<string>)
    ensures var o := DeleteLogSpec(t, logId, userId);
      && (o.result.error.Some? ==> o.tables == t && o.result.id.None?)
      && (!Truthy(userId) ==> o.result.error == Some(NotAuthenticated))
      && (logId !in t.logs ==> o.result.error.Some?)
      && (o.result.error.None? ==>
           && Truthy(userId) && logId in t.logs
           && (Truthy(t.logs[logId].characterId) ==>
                var c := t.logs[logId].characterId.value;
                c in t.characters && t.characters[c].userId == userId.value && o.result.id == Some(c))
           && (!Truthy(t.logs[logId].characterId) ==>
                o.result.id.None?
                && (t.logs[logId].dmId.Some? && t.logs[logId].dmId.value in t.dms ==>
                     t.dms[t.logs[logId].dmId.value].uid == userId)))
  {
  }

  /** After a successful deletion the log is gone, nothing it granted is
      left, everything it dropped is restored, and nothing else changed. */
  lemma DeleteLogEffects(t: Tables, logId: string, userId: Option<string>)
    requires DeleteLogSpec(t, logId, userId).result.error.None?
    ensures var n := DeleteLogSpec(t, logId, userId).tables;
      && n.logs == t.logs - {logId} && n.characters == t.characters && n.dms == t.dms
      && (forall k :: k in n.magicItems ==> n.magicItems[k].logLostId != Some(logId) && n.magicItems[k].logGainedId != logId)
      && (forall k :: k in n.storyAwards ==> n.storyAwards[k].logLostId != Some(logId) && n.storyAwards[k].logGainedId != logId)
      && (forall k :: k in t.magicItems ==> (k in n.magicItems <==> t.magicItems[k].logGainedId != logId))
      && (forall k :: k in t.storyAwards ==> (k in n.storyAwards <==> t.storyAwards[k].logGainedId != logId))
      && (forall k :: k in n.magicItems && t.magicItems[k].logLostId != Some(logId) ==> n.magicItems[k] == t.magicItems[k])
      && (forall k :: k in n.storyAwards && t.storyAwards[k].logLostId != Some(logId) ==> n.storyAwards[k] == t.storyAwards[k])
  {
  }

  /** Deleting a log keeps every relation pointing at an existing row. */
  lemma DeleteLogConsistent(t: Tables, logId: string, userId: Option<string>)
    requires Consistent(t)
    ensures Consistent(DeleteLogSpec(t, logId, userId).tables)
  {
    if DeleteLogSpec(t, logId, userId).result.error.None? {
      ItemsAfterLogDelete(t.magicItems, t.logs, logId);
      ItemsAfterLogDelete(t.storyAwards, t.logs, logId);
    }
  }

  /** Dropping what a log granted and restoring what it dropped leaves
      the items pointing at the remaining logs. */
  lemma ItemsAfterLogDelete(items: map<string, ItemRec>, logs: map<string, LogRec>, logId: string)
    requires ItemsIn(items, logs)
    ensures ItemsIn(DropGained(ClearLost(items, logId), {logId}), logs - {logId})
  {
  }

  // ---------------------------------------------------------------------
  // saveDM and deleteDM (dm.ts:9-42)

  const EditDenied := "You do not have permission to edit this DM"
  /** The message of the error the update throws when `data.id` is taken. */
  const UniqueViolation := "Unique constraint failed on the fields: (`id`)"
  const DeleteNotLoggedIn := "You must be logged in to delete a DM"
  const DeleteDenied := "You do not have permission to delete this DM"
  const DeleteHasLogs := "You cannot delete a DM that has logs"

  /** The form data of a DM: `...data` writes every field, the id included. */
  datatype DMData = DMData(id: string, name: string, dci: Option<string>, uid: Option<string>)

  datatype SaveDMResult = SaveDMResult(id: Option<string>, dm: Option<DMRec>, error: Option<string>)

  /** `saveDM`: only a DM the user may see is written; the row is replaced
      by `data` under `data.id`, and the logs follow it to its new id. */
  function SaveDMSpec(t: Tables, dmId: string, userId: string, data: DMData): Outcome<SaveDMResult> {
    if dmId !in UserDMs(t, userId) then Outcome(t, SaveDMResult(None, None, Some(EditDenied)))
    else if data.id != dmId && data.id in t.dms then Outcome(t, SaveDMResult(None, None, Some(UniqueViolation)))
    else
      var rec := DMRec(data.name, data.dci, data.uid);
      var logs := map l | l in t.logs :: if t.logs[l].dmId == Some(dmId) then t.logs[l].(dmId := Some(data.id)) else t.logs[l];
      Outcome(t.(dms := (t.dms - {dmId})[data.id := rec], logs := logs), SaveDMResult(Some(data.id), Some(rec), None))
  }

  lemma SaveDMProperties(t: Tables, dmId: string, userId: string, data: DMData)
    ensures var o := SaveDMSpec(t, dmId, userId, data);
      && (o.result.error.Some? ==> o.tables == t && o.result.id.None? && o.result.dm.None?)
      && (dmId !in UserDMs(t, userId) ==> o.result.error == Some(EditDenied))
      && (o.result.error.None? ==>
           && dmId in t.dms && VisibleTo(t, dmId, userId)
           && o.result.id == Some(data.id)
           && o.tables.dms[data.id] == DMRec(data.name, data.dci, data.uid)
           && (forall d :: d in t.dms && d != dmId ==> d in o.tables.dms && o.tables.dms[d] == t.dms[d])
           && o.tables.characters == t.characters
           && o.tables.magicItems == t.magicItems && o.tables.storyAwards == t.storyAwards)
  {
  }

  lemma SaveDMConsistent(t: Tables, dmId: string, userId: string, data: DMData)
    requires Consistent(t)
    ensures Consistent(SaveDMSpec(t, dmId, userId, data).tables)
  {
  }

  /** `deleteDM`. */
  function DeleteDMSpec(t: Tables, dmId: string, userId: Option<string>): Outcome<ActionResult> {
    if !Truthy(userId) then Outcome(t, ActionResult(None, Some(DeleteNotLoggedIn)))
    else if dmId !in UserDMs(t, userId.value) then Outcome(t, ActionResult(None, Some(DeleteDenied)))
    else if DMLogs(t, dmId) != {} then Outcome(t, ActionResult(None, Some(DeleteHasLogs)))
    else Outcome(t.(dms := t.dms - {dmId}), ActionResult(Some(dmId), None))
  }

  lemma DeleteDMProperties(t: Tables, dmId: string, userId: Option<string>)
    ensures var o := DeleteDMSpec(t, dmId, userId);
      && (o.result.error.Some? ==> o.tables == t && o.result.id.None?)
      && (!Truthy(userId) ==> o.result.error == Some(DeleteNotLoggedIn))
      && (Truthy(userId) && dmId !in UserDMs(t, userId.value) ==> o.result.error == Some(DeleteDenied))
      && (Truthy(userId) && dmId in UserDMs(t, userId.value) && DMLogs(t, dmId) != {} ==> o.result.error == Some(DeleteHasLogs))
      && (o.result.error.None? ==>
           && o.result.id == Some(dmId) && dmId in t.dms && DMLogs(t, dmId) == {}
           && o.tables == t.(dms := t.dms - {dmId}))
  {
  }

  lemma DeleteDMConsistent(t: Tables, dmId: string, userId: Option<string>)
    requires Consistent(t)
    ensures Consistent(DeleteDMSpec(t, dmId, userId).tables)
  {
    var o := DeleteDMSpec(t, dmId, userId);
    if o.result.error.None? {
      forall l | l in t.logs ensures t.logs[l].dmId != Some(dmId) {
        assert l !in DMLogs(t, dmId);
      }
    }
  }

  // ---------------------------------------------------------------------
  // deleteCharacter (character.ts:5-39)

  /** `false`, or the deleted character row. */
  datatype DeleteCharacterResult = NotDeleted | Deleted(character: CharacterRec)

  function CharacterLogs(t: Tables, characterId: string): (r: set<string>)
    ensures forall l :: l in r <==> l in t.logs && t.logs[l].characterId == Some(characterId)
  {
    set l | l in t.logs && t.logs[l].characterId == Some(characterId)
  }

  /** The cascade of character.ts:13-36: the items granted on the
      character's logs, those logs, and the character. */
  function DeleteCascade(t: Tables, characterId: string): (n: Tables)
    ensures n.dms == t.dms && n.characters == t.characters - {characterId}
    ensures forall l :: l in n.logs <==> l in t.logs && t.logs[l].characterId != Some(characterId)
  {
    var logIds := CharacterLogs(t, characterId);
    Tables(t.characters - {characterId},
      map l | l in t.logs && l !in logIds :: t.logs[l],
      t.dms,
      DropGained(t.magicItems, logIds),
      DropGained(t.storyAwards, logIds))
  }

  /** The guard as written: `character.userId !== userId`. */
  predicate DeletesAsWritten(c: CharacterRec, userId: Option<string>) {
    userId != Some(c.userId)
  }

  /** `deleteCharacter` as written. */
  function DeleteCharacterSpec(t: Tables, characterId: string, userId: Option<string>): Outcome<DeleteCharacterResult> {
    if characterId in t.characters && DeletesAsWritten(t.characters[characterId], userId) then
      Outcome(DeleteCascade(t, characterId), Deleted(t.characters[characterId]))
    else Outcome(t, NotDeleted)
  }

  /** As written, the owner's own request deletes nothing, while any other
      request, without a user at all included, deletes the character. */
  lemma DeleteCharacterAsWritten(t: Tables, characterId: string, userId: Option<string>)
    requires characterId in t.characters
    ensures userId == Some(t.characters[characterId].userId) ==>
      DeleteCharacterSpec(t, characterId, userId) == Outcome(t, NotDeleted)
    ensures userId != Some(t.characters[characterId].userId) ==>
      DeleteCharacterSpec(t, characterId, userId).result == Deleted(t.characters[characterId])
      && characterId !in DeleteCharacterSpec(t, characterId, userId).tables.characters
  {
  }

  /** A concrete pair of requests showing the inverted guard. */
  lemma OwnerCannotDeleteOwnCharacter()
    ensures var t := Tables(map["c1" := CharacterRec("Aria", "u1")], map[], map[], map[], map[]);
      && DeleteCharacterSpec(t, "c1", Some("u1")).result == NotDeleted
      && DeleteCharacterSpec(t, "c1", Some("u2")).result == Deleted(CharacterRec("Aria", "u1"))
      && DeleteCharacterSpec(t, "c1", None).result == Deleted(CharacterRec("Aria", "u1"))
  {
  }

  /** The intended guard: only the owner may delete. */
  predicate DeletesAsIntended(c: CharacterRec, userId: Option<string>) {
    userId == Some(c.userId)
  }

  /** `deleteCharacter` with the intended guard. */
  function DeleteCharacterFixed(t: Tables, characterId: string, userId: Option<string>): (o: Outcome<DeleteCharacterResult>)
    ensures o.result.Deleted? <==> characterId in t.characters && userId == Some(t.characters[characterId].userId)
    ensures o.result.Deleted? ==> o.tables == DeleteCascade(t, characterId) && o.result.character == t.characters[characterId]
    ensures o.result.NotDeleted? ==> o.tables == t
  {
    if characterId in t.characters && DeletesAsIntended(t.characters[characterId], userId) then
      Outcome(DeleteCascade(t, characterId), Deleted(t.characters[characterId]))
    else Outcome(t, NotDeleted)
  }

  /** The cascade removes every log of the character and everything those
      logs granted; an item dropped on one of those logs but granted on
      another log is left as it was. */
  lemma DeleteCascadeEffects(t: Tables, characterId: string)
    ensures var n := DeleteCascade(t, characterId);
      && (forall l :: l in n.logs ==> n.logs[l] == t.logs[l])
      && (forall k :: k in n.magicItems <==> k in t.magicItems && t.magicItems[k].logGainedId !in CharacterLogs(t, characterId))
      && (forall k :: k in n.storyAwards <==> k in t.storyAwards && t.storyAwards[k].logGainedId !in CharacterLogs(t, characterId))
      && (forall k :: k in n.magicItems ==> n.magicItems[k] == t.magicItems[k])
      && (forall k :: k in n.storyAwards ==> n.storyAwards[k] == t.storyAwards[k])
  {
  }

  /** Items are dropped only on logs of the character that gained them. */
  ghost predicate LossesOnOwnLogs(t: Tables) {
    && (forall k :: k in t.magicItems && t.magicItems[k].logLostId.Some? ==>
          t.magicItems[k].logGainedId in t.logs && t.magicItems[k].logLostId.value in t.logs
          && t.logs[t.magicItems[k].logLostId.value].characterId == t.logs[t.magicItems[k].logGainedId].characterId)
    && (forall k :: k in t.storyAwards && t.storyAwards[k].logLostId.Some? ==>
          t.storyAwards[k].logGainedId in t.logs && t.storyAwards[k].logLostId.value in t.logs
          && t.logs[t.storyAwards[k].logLostId.value].characterId == t.logs[t.storyAwards[k].logGainedId].characterId)
  }

  /** When items are only ever dropped on logs of their own character, the
      cascade leaves no relation dangling. */
  lemma DeleteCascadeConsistent(t: Tables, characterId: string)
    requires Consistent(t) && LossesOnOwnLogs(t)
    ensures Consistent(DeleteCascade(t, characterId))
  {
    var n := DeleteCascade(t, characterId);
    forall k | k in n.magicItems && n.magicItems[k].logLostId.Some?
      ensures n.magicItems[k].logLostId.value in n.logs
    {
      var g := t.magicItems[k].logGainedId;
      assert g in n.logs;
    }
    forall k | k in n.storyAwards && n.storyAwards[k].logLostId.Some?
      ensures n.storyAwards[k].logLostId.value in n.logs
    {
      var g := t.storyAwards[k].logGainedId;
      assert g in n.logs;
    }
    forall l | l in n.logs && n.logs[l].characterId.Some?
      ensures n.logs[l].characterId.value in n.characters
    {
      assert t.logs[l].characterId != Some(characterId);
    }
  }

  // ---------------------------------------------------------------------
  // The store the actions run against

  class Db {
    var characters: map<string, CharacterRec>
    var logs: map<string, LogRec>
    var dms: map<string, DMRec>
    var magicItems: map<string, ItemRec>
    var storyAwards: map<string, ItemRec>

    function State(): Tables
      reads this
    {
      Tables(characters, logs, dms, magicItems, storyAwards)
    }

    constructor (t: Tables)
      ensures State() == t
    {
      characters, logs, dms, magicItems, storyAwards := t.characters, t.logs, t.dms, t.magicItems, t.storyAwards;
    }

    /** The rollback of a transaction. */
    method Restore(t: Tables)
      modifies this
      ensures State() == t
    {
      characters, logs, dms, magicItems, storyAwards := t.characters, t.logs, t.dms, t.magicItems, t.storyAwards;
    }

    method DeleteLog(logId: string, userId: Option<string>) returns (r: ActionResult)
      modifies this
      ensures State() == DeleteLogSpec(old(State()), logId, userId).tables
      ensures r == DeleteLogSpec(old(State()), logId, userId).result
    {
      if !Truthy(userId) {
        return ActionResult(None, Some(NotAuthenticated));
      }
      var saved := State();
      var character: Option<string> := None;
      if logId in logs && Truthy(logs[logId].characterId) {
        var c := logs[logId].characterId.value;
        if !(c in characters && characters[c].userId == userId.value) {
          return ActionResult(None, Some(NotAuthorized));
        }
        character := Some(c);
      } else if logId in logs && logs[logId].dmId.Some? && logs[logId].dmId.value in dms
                && dms[logs[logId].dmId.value].uid != Some(userId.value) {
        return ActionResult(None, Some(NotAuthorized));
      }
      magicItems := ClearLost(magicItems, logId);
      magicItems := DropGained(magicItems, {logId});
      storyAwards := ClearLost(storyAwards, logId);
      storyAwards := DropGained(storyAwards, {logId});
      if logId !in logs {
        Restore(saved);
        return ActionResult(None, Some(RecordNotFound));
      }
      logs := logs - {logId};
      r := ActionResult(character, None);
    }

    method SaveDM(dmId: string, userId: string, data: DMData) returns (r: SaveDMResult)
      modifies this
      ensures State() == SaveDMSpec(old(State()), dmId, userId, data).tables
      ensures r == SaveDMSpec(old(State()), dmId, userId, data).result
    {
      var visible := UserDMs(State(), userId);
      if dmId !in visible {
        return SaveDMResult(None, None, Some(EditDenied));
      }
      if data.id != dmId && data.id in dms {
        return SaveDMResult(None, None, Some(UniqueViolation));
      }
      var rec := DMRec(data.name, data.dci, data.uid);
      dms := (dms - {dmId})[data.id := rec];
      logs := map l | l in logs :: if logs[l].dmId == Some(dmId) then logs[l].(dmId := Some(data.id)) else logs[l];
      r := SaveDMResult(Some(data.id), Some(rec), None);
    }

    method DeleteDM(dmId: string, userId: Option<string>) returns (r: ActionResult)
      modifies this
      ensures State() == DeleteDMSpec(old(State()), dmId, userId).tables
      ensures r == DeleteDMSpec(old(State()), dmId, userId).result
    {
      if !Truthy(userId) {
        return ActionResult(None, Some(DeleteNotLoggedIn));
      }
      var withLogs := UserDMsWithLogs(State(), userId.value);
      if dmId !in withLogs {
        return ActionResult(None, Some(DeleteDenied));
      }
      if withLogs[dmId] != {} {
        return ActionResult(None, Some(DeleteHasLogs));
      }
      dms := dms - {dmId};
      r := ActionResult(Some(dmId), None);
    }

    /** `deleteCharacter` as written, with its inverted guard. */
    method DeleteCharacter(characterId: string, userId: Option<string>) returns (r: DeleteCharacterResult)
      modifies this
      ensures State() == DeleteCharacterSpec(old(State()), characterId, userId).tables
      ensures r == DeleteCharacterSpec(old(State()), characterId, userId).result
    {
      if characterId in characters && DeletesAsWritten(characters[characterId], userId) {
        var c := characters[characterId];
        var logIds := CharacterLogs(State(), characterId);
        magicItems := DropGained(magicItems, logIds);
        storyAwards := DropGained(storyAwards, logIds);
        logs := map l | l in logs && l !in logIds :: logs[l];
        characters := characters - {characterId};
        return Deleted(c);
      }
      return NotDeleted;
    }
  }
}
