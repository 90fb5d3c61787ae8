/** The settings service: provider credentials with ids drawn from a counter
    that only ever increases, and a stub connection test that looks only at
    which credential fields are filled in. Ids arrive as strings; `None`
    stands for one that `parseInt` turns into `NaN`. */
module SettingsService {
  import opened Base
  import opened Store

  datatype ConnectionStatus = NotTested | Connected | ConnectionFailed

  /** A stored setting. A credential field the record lacks is the empty
      string, which is falsy exactly like `undefined`. */
  datatype Setting = Setting(
    id: int,
    category: string,
    name: string,
    isActive: bool,
    apiUrl: string,
    apiKey: string,
    phoneNumberId: string,
    businessAccountId: string,
    connectionStatus: ConnectionStatus,
    lastTested: Option<Time>,
    createdAt: Time,
    updatedAt: Time)

  /** An object spread into a setting by `create` or `update`: a `Some` field
      overrides. */
  datatype SettingPatch = SettingPatch(
    id: Option<int>,
    category: Option<string>,
    name: Option<string>,
    isActive: Option<bool>,
    apiUrl: Option<string>,
    apiKey: Option<string>,
    phoneNumberId: Option<string>,
    businessAccountId: Option<string>,
    connectionStatus: Option<ConnectionStatus>,
    lastTested: Option<Option<Time>>,
    createdAt: Option<Time>,
    updatedAt: Option<Time>)

  datatype SettingsState = SettingsState(items: seq<Setting>, nextId: int)

  /** What `testConnection` resolves to. */
  datatype TestOutcome = TestOutcome(success: bool, status: ConnectionStatus, message: string)

  function IdOf(s: Setting): int { s.id }

  /** The service invariant: unique ids, all below the counter. */
  predicate Valid(st: SettingsState) {
    && UniqueKeys(st.items, IdOf)
    && forall i :: 0 <= i < |st.items| ==> st.items[i].id < st.nextId
  }

  /** `nextId = Math.max(...ids) + 1` over the seed. For an empty seed that is
      `-Infinity`, which no integer models: `None`. */
  function InitialState(seed: seq<Setting>): (r: Option<SettingsState>)
    ensures r.None? <==> |seed| == 0
    ensures r.Some? ==> r.value.items == seed && HasKey(seed, IdOf, r.value.nextId - 1)
    ensures r.Some? && UniqueKeys(seed, IdOf) ==> Valid(r.value)
  {
    if |seed| == 0 then None else Some(SettingsState(seed, NextKey(seed, IdOf)))
  }

  /** `getById`. */
  function GetById(st: SettingsState, id: Option<int>): (r: Result<Setting>)
    ensures id.None? ==> r == Err(InvalidIdFormat)
    ensures id.Some? && !HasKey(st.items, IdOf, id.value) ==> r == Err(NotFound("Setting"))
    ensures r.Ok? <==> id.Some? && HasKey(st.items, IdOf, id.value)
    ensures r.Ok? ==> r.value in st.items && r.value.id == id.value
    ensures r.Ok? ==> exists k :: 0 <= k < |st.items| && st.items[k] == r.value && forall j :: 0 <= j < k ==> st.items[j].id != id.value
  {
    if id.None? then Err(InvalidIdFormat)
    else match IndexOf(st.items, IdOf, id.value)
      case None => Err(NotFound("Setting"))
      case Some(k) => Ok(st.items[k])
  }

  function Fill(s: Setting, p: SettingPatch): Setting {
    s.(category := if p.category.Some? then p.category.value else s.category,
       name := if p.name.Some? then p.name.value else s.name,
       isActive := if p.isActive.Some? then p.isActive.value else s.isActive,
       apiUrl := if p.apiUrl.Some? then p.apiUrl.value else s.apiUrl,
       apiKey := if p.apiKey.Some? then p.apiKey.value else s.apiKey,
       phoneNumberId := if p.phoneNumberId.Some? then p.phoneNumberId.value else s.phoneNumberId,
       businessAccountId := if p.businessAccountId.Some? then p.businessAccountId.value else s.businessAccountId,
       connectionStatus := if p.connectionStatus.Some? then p.connectionStatus.value else s.connectionStatus,
       lastTested := if p.lastTested.Some? then p.lastTested.value else s.lastTested,
       createdAt := if p.createdAt.Some? then p.createdAt.value else s.createdAt,
       updatedAt := if p.updatedAt.Some? then p.updatedAt.value else s.updatedAt)
  }

  /** The descriptive and credential fields of `after` are the patch's where
      it carries them and `before`'s otherwise. */
  predicate CarriesPatch(before: Setting, p: SettingPatch, after: Setting) {
    && after.category == (if p.category.Some? then p.category.value else before.category)
    && after.name == (if p.name.Some? then p.name.value else before.name)
    && after.isActive == (if p.isActive.Some? then p.isActive.value else before.isActive)
    && after.apiUrl == (if p.apiUrl.Some? then p.apiUrl.value else before.apiUrl)
    && after.apiKey == (if p.apiKey.Some? then p.apiKey.value else before.apiKey)
    && after.phoneNumberId == (if p.phoneNumberId.Some? then p.phoneNumberId.value else before.phoneNumberId)
    && after.businessAccountId == (if p.businessAccountId.Some? then p.businessAccountId.value else before.businessAccountId)
  }

  /** Every field of `after` but the id and `updatedAt` is the patch's where
      it carries one and `before`'s otherwise. */
  predicate PatchedFrom(before: Setting, p: SettingPatch, after: Setting) {
    && CarriesPatch(before, p, after)
    && after.connectionStatus == (if p.connectionStatus.Some? then p.connectionStatus.value else before.connectionStatus)
    && after.lastTested == (if p.lastTested.Some? then p.lastTested.value else before.lastTested)
    && after.createdAt == (if p.createdAt.Some? then p.createdAt.value else before.createdAt)
  }

  /** A setting with no field set: every string empty, inactive, untested. */
  function Blank(now: Time): Setting {
    Setting(0, "", "", false, "", "", "", "", NotTested, None, now, now)
  }

  /** `create`: spread the item, then force the counter id, fresh stamps,
      status `not_tested` and no test time, whatever the caller passed. */
  function Create(st: SettingsState, item: SettingPatch, now: Time): (r: (SettingsState, Setting))
    ensures r.0.items == st.items + [r.1] && r.0.nextId == st.nextId + 1
    ensures r.1.id == st.nextId
    ensures r.1.connectionStatus == NotTested && r.1.lastTested == None
    ensures r.1.createdAt == now && r.1.updatedAt == now
    ensures CarriesPatch(Blank(now), item, r.1)
    ensures Valid(st) ==> Valid(r.0)
  {
    var s := Fill(Blank(now), item).(id := st.nextId, createdAt := now, updatedAt := now,
                                connectionStatus := NotTested, lastTested := None);
    var st' := SettingsState(st.items + [s], st.nextId + 1);
    assert Valid(st) ==> Valid(st') by {
      if Valid(st) {
        AppendFreshKeepsUnique(st.items, [s], IdOf);
      }
    }
    (st', s)
  }

  /** `update`: spread the patch (a `createdAt` in it overrides too), keep
      the parsed id, stamp `updatedAt`. */
  function Update(st: SettingsState, id: Option<int>, p: SettingPatch, now: Time): (r: Result<(SettingsState, Setting)>)
    ensures id.None? ==> r == Err(InvalidIdFormat)
    ensures id.Some? && !HasKey(st.items, IdOf, id.value) ==> r == Err(NotFound("Setting"))
    ensures r.Ok? <==> id.Some? && HasKey(st.items, IdOf, id.value)
    ensures r.Ok? ==> r.value.0.nextId == st.nextId && r.value.1.id == id.value && r.value.1.updatedAt == now
    ensures r.Ok? ==> exists k ::
      && 0 <= k < |st.items| && st.items[k].id == id.value
      && (forall j :: 0 <= j < k ==> st.items[j].id != id.value)
      && r.value.0.items == st.items[k := r.value.1]
      && PatchedFrom(st.items[k], p, r.value.1)
    ensures r.Ok? && Valid(st) ==> Valid(r.value.0)
  {
    if id.None? then Err(InvalidIdFormat)
    else match IndexOf(st.items, IdOf, id.value)
      case None => Err(NotFound("Setting"))
      case Some(k) =>
        var s := Fill(st.items[k], p).(id := id.value, updatedAt := now);
        assert PatchedFrom(st.items[k], p, s);
        assert Valid(st) ==> Valid(SettingsState(st.items[k := s], st.nextId)) by {
          if Valid(st) { ReplaceKeepsUnique(st.items, IdOf, k, s); }
        }
        Ok((SettingsState(st.items[k := s], st.nextId), s))
  }

  const NoChange := SettingPatch(None, None, None, None, None, None, None, None, None, None, None, None)

  /** Updating a stored setting with an empty patch only stamps `updatedAt`. */
  lemma UpdateNoChange(st: SettingsState, k: nat, now: Time)
    requires Valid(st) && k < |st.items|
    ensures var r := Update(st, Some(st.items[k].id), NoChange, now);
      r.Ok? && r.value.0.items == st.items[k := st.items[k].(updatedAt := now)]
  {
    var id := st.items[k].id;
    var r := Update(st, Some(id), NoChange, now);
    var j :| 0 <= j < |st.items| && st.items[j].id == id && r.value.0.items == st.items[j := r.value.1]
      && CarriesPatch(st.items[j], NoChange, r.value.1)
      && r.value.1.connectionStatus == st.items[j].connectionStatus
      && r.value.1.lastTested == st.items[j].lastTested
      && r.value.1.createdAt == st.items[j].createdAt;
    assert j == k;
    assert r.value.1 == st.items[k].(updatedAt := now);
  }

  /** `delete_`: splice the setting out; the counter stays. */
  function Delete(st: SettingsState, id: Option<int>): (r: Result<SettingsState>)
    ensures id.None? ==> r == Err(InvalidIdFormat)
    ensures id.Some? && !HasKey(st.items, IdOf, id.value) ==> r == Err(NotFound("Setting"))
    ensures r.Ok? <==> id.Some? && HasKey(st.items, IdOf, id.value)
    ensures r.Ok? ==> r.value.nextId == st.nextId
    ensures r.Ok? ==> exists k :: 0 <= k < |st.items| && st.items[k].id == id.value && (forall j :: 0 <= j < k ==> st.items[j].id != id.value) && r.value.items == st.items[..k] + st.items[k + 1..]
    ensures r.Ok? && Valid(st) ==> Valid(r.value) && !HasKey(r.value.items, IdOf, id.value)
  {
    if id.None? then Err(InvalidIdFormat)
    else match IndexOf(st.items, IdOf, id.value)
      case None => Err(NotFound("Setting"))
      case Some(k) =>
        assert Valid(st) ==> Valid(SettingsState(RemoveAt(st.items, k), st.nextId)) && !HasKey(RemoveAt(st.items, k), IdOf, id.value) by {
          if Valid(st) { RemoveAtKeepsUnique(st.items, IdOf, k); }
        }
        Ok(SettingsState(RemoveAt(st.items, k), st.nextId))
  }

  /** The stub's validity rule: `apiUrl && apiKey && phoneNumberId`. */
  const SuccessMessage := "Connection successful"
  const FailureMessage := "Connection failed - check your credentials"

  predicate Credentialed(s: Setting) {
    s.apiUrl != "" && s.apiKey != "" && s.phoneNumberId != ""
  }

  /** `testConnection`: report `connected` exactly for a setting whose three
      credential fields are filled in, and write the status and test time back
      to that record alone. */
  function TestConnection(st: SettingsState, id: Option<int>, now: Time): (r: Result<(SettingsState, TestOutcome)>)
    ensures id.None? ==> r == Err(InvalidIdFormat)
    ensures id.Some? && !HasKey(st.items, IdOf, id.value) ==> r == Err(NotFound("Setting"))
    ensures r.Ok? <==> id.Some? && HasKey(st.items, IdOf, id.value)
    ensures r.Ok? ==> var (st', out) := r.value;
      && st'.nextId == st.nextId
      && (out.success <==> Credentialed(GetById(st, id).value))
      && (out.status == if out.success then Connected else ConnectionFailed)
      && (out.message == if out.success then SuccessMessage else FailureMessage)
      && exists k :: 0 <= k < |st.items| && st.items[k].id == id.value && (forall j :: 0 <= j < k ==> st.items[j].id != id.value) && st'.items == st.items[k := st.items[k].(connectionStatus := out.status, lastTested := Some(now), updatedAt := now)]
  {
    if id.None? then Err(InvalidIdFormat)
    else match IndexOf(st.items, IdOf, id.value)
      case None => Err(NotFound("Setting"))
      case Some(k) =>
        var s := st.items[k];
        var valid := Credentialed(s);
        var status := if valid then Connected else ConnectionFailed;
        var msg := if valid then SuccessMessage else FailureMessage;
        Ok((SettingsState(st.items[k := s.(connectionStatus := status, lastTested := Some(now), updatedAt := now)], st.nextId),
            TestOutcome(valid, status, msg)))
  }

  /** The business account id plays no part in the connection test. */
  lemma TestIgnoresBusinessAccount(st: SettingsState, k: nat, other: string, now: Time)
    requires Valid(st) && k < |st.items|
    ensures var id := Some(st.items[k].id);
      var st2 := st.(items := st.items[k := st.items[k].(businessAccountId := other)]);
      && TestConnection(st, id, now).Ok? && TestConnection(st2, id, now).Ok?
      && TestConnection(st, id, now).value.1 == TestConnection(st2, id, now).value.1
  {
    var id := st.items[k].id;
    var st2 := st.(items := st.items[k := st.items[k].(businessAccountId := other)]);
    IndexOfUnique(st.items, IdOf, id, k);
    ReplaceKeepsUnique(st.items, IdOf, k, st.items[k].(businessAccountId := other));
    IndexOfUnique(st2.items, IdOf, id, k);
  }

  /** Ids are never reused: a setting created after a delete never gets the
      deleted id back. */
  lemma NoIdReuse(st: SettingsState, id: int, item: SettingPatch, now: Time)
    requires Valid(st)
    requires Delete(st, Some(id)).Ok?
    ensures Create(Delete(st, Some(id)).value, item, now).1.id != id
    ensures Create(Delete(st, Some(id)).value, item, now).1.id > id
  {
    var k := IndexOf(st.items, IdOf, id).value;
    assert st.items[k].id < st.nextId;
  }
}
