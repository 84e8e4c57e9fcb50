/**
 * The owner's editor page (frontend/static/js/editor.js) as a state machine:
 * the module globals `currentClassId`, `saveTimeout`, `recentlySaved`,
 * `recentlySavedTimeout`, `updatePollingInterval` and `classesMap`, plus the
 * parts of the Monaco editor the sync logic reads (displayed text, language,
 * focus, read-only flag).
 *
 * Every callback is one method. A pending `setTimeout` is its deadline; a
 * timer fires exactly at its deadline, and no other event is delivered while
 * a timer is overdue. A save is two events: the debounce timer fires and the
 * request leaves, then its response arrives. A poll is one event.
 *
 * Monaco reports programmatic `setValue` through `onDidChangeModelContent`
 * exactly like typing, so every change of the displayed text re-arms the
 * debounced save.
 */
module EditorSync {
  import opened Wrappers
  import opened SyncTypes

  /** Debounce of the autosave listener. */
  const SaveDelay: int := 1000
  /** Life of the `recentlySaved` flag after a successful save. */
  const CoolDown: int := 1000
  /** Period of `setupRealtimeUpdates`' interval. */
  const PollPeriod: nat := 2000
  /** Shown while a selected class is loading. */
  const LoadingText: string := "Loading..."

  /** An entry of `classesMap`: the class list item the page keeps per classroom. */
  datatype ClassEntry = ClassEntry(className: string, lastUpdated: int, lastAccessed: Option<int>)

  /**
   * The gate of checkForUpdates: remote text replaces the displayed text
   * when it differs from what is displayed, the editor is not focused and
   * no save of this page succeeded within the cool-down.
   */
  predicate AppliesRemote(remote: string, displayed: string, focused: bool, recentlySaved: bool) {
    remote != displayed && !focused && !recentlySaved
  }

  /** A poll response carrying a parsed blob, which is all checkForUpdates looks at. */
  predicate CarriesBlob(resp: FetchResult) {
    resp.Fetched? && resp.data.content.Truthy() && resp.data.parsed.Some?
  }

  /** `classesMap.get(id).last_updated = t` when the class is in the map. */
  function Touch(m: map<string, ClassEntry>, id: Option<string>, t: int): (r: map<string, ClassEntry>)
    ensures r.Keys == m.Keys
    ensures forall k :: k in m && Some(k) != id ==> r[k] == m[k]
    ensures id.Some? && id.value in m ==> r[id.value] == m[id.value].(lastUpdated := t)
  {
    if id.Some? && id.value in m then m[id.value := m[id.value].(lastUpdated := t)] else m
  }

  /**
   * What selectClass leaves displayed for a class that is in `classesMap`.
   * Only a failed fetch looks at what was displayed before.
   */
  function SelectedText(previous: string, resp: FetchResult): (r: string)
    // A failed fetch keeps the previous text, unless that is the placeholder.
    ensures resp.NetworkError? ==> r == (if previous == LoadingText then "" else previous)
    // A 2xx body with content shows the blob's text, or the raw content when it does not parse.
    ensures CarriesBlob(resp) ==> r == resp.data.parsed.value.text
    ensures resp.Fetched? && resp.data.content.Truthy() && resp.data.parsed.None? ==> r == resp.data.content.s
    // An error status or empty content clears the editor.
    ensures !resp.NetworkError? && !(resp.Fetched? && resp.data.content.Truthy()) ==> r == ""
    // The placeholder stays displayed only when the server's content is the placeholder itself.
    ensures r == LoadingText ==>
      resp.Fetched? && resp.data.content.Truthy()
      && (resp.data.parsed.Some? ==> resp.data.parsed.value.text == LoadingText)
      && (resp.data.parsed.None? ==> resp.data.content.s == LoadingText)
  {
    match resp
    case NetworkError => if previous != "" && previous != LoadingText then previous else ""
    case HttpError(_) => ""
    case Fetched(data) =>
      if data.content.Truthy() then
        (if data.parsed.Some? then data.parsed.value.text else data.content.s)
      else ""
  }

  /** The language a blob switches the editor to: its own when it names one. */
  function BlobLanguage(current: string, blob: Blob): string
  {
    if blob.language != "" then blob.language else current
  }

  /** The language selectClass leaves set. */
  function SelectedLanguage(current: string, resp: FetchResult): (r: string)
    // The language changes only to one that a parsed blob names.
    ensures r != current ==> CarriesBlob(resp) && r == resp.data.parsed.value.language
    // A parsed blob that names a language always sets it.
    ensures CarriesBlob(resp) && resp.data.parsed.value.language != "" ==> r == resp.data.parsed.value.language
    // A language once set is never cleared.
    ensures current != "" ==> r != ""
  {
    if CarriesBlob(resp) then BlobLanguage(current, resp.data.parsed.value) else current
  }

  class EditorAgent {
    var currentClassId: Option<string>
    var recentlySaved: bool
    /** Deadline of the pending debounced save. */
    var saveTimeout: Option<int>
    /** Deadline of the pending reset of `recentlySaved`. */
    var recentlySavedTimeout: Option<int>
    /** Period of the poll interval, when one is installed. */
    var updatePollingInterval: Option<nat>
    var classesMap: map<string, ClassEntry>
    /** The editor's displayed text, language, focus and read-only option. */
    var text: string
    var language: string
    var hasFocus: bool
    var readOnly: bool
    /** Save requests issued whose responses have not arrived. */
    var pendingSaves: nat
    /** Time of the last event. */
    var clock: int
    /** Time of the last change of the displayed text. */
    ghost var lastChange: int
    /** Time of the last successful save response. */
    ghost var savedAt: int

    ghost predicate Valid()
      reads this
    {
      && (saveTimeout.Some? ==> saveTimeout.value == lastChange + SaveDelay && lastChange <= clock)
      && (recentlySaved <==> recentlySavedTimeout.Some?)
      && (recentlySavedTimeout.Some? ==> recentlySavedTimeout.value == savedAt + CoolDown && savedAt <= clock)
      && (updatePollingInterval.Some? ==> updatePollingInterval.value == PollPeriod)
      && (currentClassId.None? ==> readOnly)
    }

    /** No pending timer is past its deadline at `now`. */
    predicate NotOverdue(now: int)
      reads this
    {
      (saveTimeout.None? || now <= saveTimeout.value)
      && (recentlySavedTimeout.None? || now <= recentlySavedTimeout.value)
    }

    /** The page after initializeEditor and loadClassList: nothing selected, read-only, empty. */
    constructor(classes: map<string, ClassEntry>, now: int)
      ensures Valid()
      ensures currentClassId.None? && readOnly && text == "" && language == "plaintext"
      ensures !recentlySaved && saveTimeout.None? && updatePollingInterval.None? && pendingSaves == 0
      ensures classesMap == classes && !hasFocus && clock == now
    {
      currentClassId := None;
      recentlySaved := false;
      saveTimeout := None;
      recentlySavedTimeout := None;
      updatePollingInterval := None;
      classesMap := classes;
      text := "";
      language := "plaintext";
      hasFocus := false;
      readOnly := true;
      pendingSaves := 0;
      clock := now;
      lastChange := now;
      savedAt := now;
    }

    /**
     * `editor.setValue(t)` followed by the onDidChangeModelContent listener:
     * the pending save is cancelled and a single new one is armed 1000 ms later.
     */
    method SetValue(now: int, t: string)
      requires Valid() && clock == now
      modifies this`text, this`saveTimeout, this`lastChange
      ensures text == t && saveTimeout == Some(now + SaveDelay) && lastChange == now
      ensures Valid()
    {
      text := t;
      saveTimeout := Some(now + SaveDelay);
      lastChange := now;
    }

    /** The user types, pastes or applies a formatting operation, giving `newText`. */
    method LocalEdit(now: int, newText: string)
      requires Valid() && clock <= now && NotOverdue(now)
      requires !readOnly
      modifies this`text, this`saveTimeout, this`lastChange, this`clock
      ensures text == newText && saveTimeout == Some(now + SaveDelay) && lastChange == now
      ensures clock == now && Valid()
    {
      clock := now;
      SetValue(now, newText);
    }

    method SetFocus(now: int, focused: bool)
      requires Valid() && clock <= now && NotOverdue(now)
      modifies this`hasFocus, this`clock
      ensures hasFocus == focused && clock == now && Valid()
    {
      hasFocus := focused;
      clock := now;
    }

    /**
     * The debounce timer fires and runs updateNotes: it is a no-op without a
     * selected class; otherwise it posts the displayed text and language. The
     * cool-down flag is not touched here.
     */
    method SaveTimerFires(now: int, formatOptions: map<string, bool>) returns (request: Option<SaveRequest>)
      requires Valid() && clock <= now
      requires saveTimeout == Some(now)
      modifies this`saveTimeout, this`pendingSaves, this`clock
      ensures now == lastChange + SaveDelay
      ensures saveTimeout.None? && clock == now
      ensures request.Some? <==> currentClassId.Some?
      ensures request.Some? ==>
        request.value == SaveRequest(currentClassId.value, Blob(text, language, Some(formatOptions), now), false)
        && pendingSaves == old(pendingSaves) + 1
      ensures request.None? ==> pendingSaves == old(pendingSaves)
      ensures Valid()
    {
      saveTimeout := None;
      clock := now;
      if currentClassId.None? {
        return None;
      }
      request := Some(SaveRequest(currentClassId.value, Blob(text, language, Some(formatOptions), now), false));
      pendingSaves := pendingSaves + 1;
    }

    /**
     * The response to a save arrives. On success the class entry of the
     * class selected now is stamped, `recentlySaved` is raised, any earlier
     * reset is cancelled and one reset is armed 1000 ms later; on failure the
     * flag and its timer stay as they were.
     */
    method SaveCompleted(now: int, ok: bool)
      requires Valid() && clock <= now && NotOverdue(now)
      requires pendingSaves > 0
      modifies this`recentlySaved, this`recentlySavedTimeout, this`classesMap, this`pendingSaves, this`clock, this`savedAt
      ensures pendingSaves == old(pendingSaves) - 1 && clock == now
      ensures ok ==>
        recentlySaved && recentlySavedTimeout == Some(now + CoolDown)
        && classesMap == Touch(old(classesMap), currentClassId, now)
      ensures !ok ==>
        recentlySaved == old(recentlySaved) && recentlySavedTimeout == old(recentlySavedTimeout)
        && classesMap == old(classesMap)
      ensures Valid()
    {
      pendingSaves := pendingSaves - 1;
      clock := now;
      if ok {
        classesMap := Touch(classesMap, currentClassId, now);
        recentlySaved := true;
        recentlySavedTimeout := Some(now + CoolDown);
        savedAt := now;
      }
    }

    /** The reset armed by a successful save fires. */
    method RecentlySavedExpires(now: int)
      requires Valid() && clock <= now
      requires recentlySavedTimeout == Some(now)
      modifies this`recentlySaved, this`recentlySavedTimeout, this`clock
      ensures now == savedAt + CoolDown
      ensures !recentlySaved && recentlySavedTimeout.None? && clock == now
      ensures Valid()
    {
      recentlySaved := false;
      recentlySavedTimeout := None;
      clock := now;
    }

    /**
     * The poll interval fires and runs checkForUpdates. Without a selected
     * class nothing happens. Otherwise the remote text is applied exactly when
     * the response carries a parsed blob and the gate AppliesRemote holds for
     * the displayed text; an applied update is a setValue, so it re-arms the
     * debounced save. Error responses, empty content and unparsable content
     * leave everything as it was.
     */
    method CheckForUpdates(now: int, resp: FetchResult) returns (applied: bool)
      requires Valid() && clock <= now && NotOverdue(now)
      requires updatePollingInterval.Some?
      modifies this`text, this`saveTimeout, this`lastChange, this`language, this`classesMap, this`clock
      ensures clock == now && Valid()
      ensures applied <==>
        (currentClassId.Some? && CarriesBlob(resp)
         && AppliesRemote(resp.data.parsed.value.text, old(text), hasFocus, recentlySaved))
      ensures applied ==>
        var blob := resp.data.parsed.value;
        text == blob.text && saveTimeout == Some(now + SaveDelay) && lastChange == now
        && language == BlobLanguage(old(language), blob)
        && classesMap == Touch(old(classesMap), currentClassId, resp.data.lastUpdated.GetOr(now))
      ensures !applied ==>
        text == old(text) && saveTimeout == old(saveTimeout) && language == old(language)
        && classesMap == old(classesMap)
    {
      clock := now;
      applied := false;
      if currentClassId.None? {
        return;
      }
      if resp.Fetched? && resp.data.content.Truthy() && resp.data.parsed.Some? {
        var blob := resp.data.parsed.value;
        if blob.text != text && !hasFocus && !recentlySaved {
          SetValue(now, blob.text);
          if blob.language != "" && blob.language != language {
            language := blob.language;
          }
          classesMap := Touch(classesMap, currentClassId, resp.data.lastUpdated.GetOr(now));
          applied := true;
        }
      }
    }

    /**
     * selectClass. A class missing from `classesMap` only becomes current
     * (the page throws on its missing name before touching the editor).
     * Otherwise the editor is enabled, shows "Loading..." and then the
     * loaded text (SelectedText); unless the fetch itself failed, the entry
     * is stamped as accessed and a single poll interval is installed.
     */
    method SelectClass(now: int, classId: string, resp: FetchResult)
      requires Valid() && clock <= now && NotOverdue(now)
      modifies this`currentClassId, this`readOnly, this`text, this`saveTimeout, this`lastChange,
        this`language, this`classesMap, this`updatePollingInterval, this`clock
      ensures currentClassId == Some(classId) && clock == now && Valid()
      ensures classId !in old(classesMap) ==>
        readOnly == old(readOnly) && text == old(text) && saveTimeout == old(saveTimeout)
        && language == old(language) && classesMap == old(classesMap)
        && updatePollingInterval == old(updatePollingInterval)
      ensures classId in old(classesMap) ==>
        !readOnly && text == SelectedText(old(text), resp) && saveTimeout == Some(now + SaveDelay)
        && language == SelectedLanguage(old(language), resp)
      ensures classId in old(classesMap) && resp.NetworkError? ==>
        classesMap == old(classesMap) && updatePollingInterval == old(updatePollingInterval)
      ensures classId in old(classesMap) && !resp.NetworkError? ==>
        classesMap == old(classesMap)[classId := old(classesMap)[classId].(lastAccessed := Some(now))]
        && updatePollingInterval == Some(PollPeriod)
    {
      clock := now;
      currentClassId := Some(classId);
      if classId in classesMap {
        OpenClass(now, classId, resp);
      }
    }

    /** selectClass from the point where the class entry was found. */
    method OpenClass(now: int, classId: string, resp: FetchResult)
      requires Valid() && clock == now && currentClassId == Some(classId) && classId in classesMap
      modifies this`readOnly, this`text, this`saveTimeout, this`lastChange,
        this`language, this`classesMap, this`updatePollingInterval
      ensures Valid()
      ensures !readOnly && text == SelectedText(old(text), resp) && saveTimeout == Some(now + SaveDelay)
      ensures language == SelectedLanguage(old(language), resp)
      ensures resp.NetworkError? ==>
        classesMap == old(classesMap) && updatePollingInterval == old(updatePollingInterval)
      ensures !resp.NetworkError? ==>
        classesMap == old(classesMap)[classId := old(classesMap)[classId].(lastAccessed := Some(now))]
        && updatePollingInterval == Some(PollPeriod)
    {
      readOnly := false;
      var currentContent := text;
      SetValue(now, LoadingText);
      ShowLoaded(now, currentContent, resp);
      if !resp.NetworkError? {
        classesMap := classesMap[classId := classesMap[classId].(lastAccessed := Some(now))];
        updatePollingInterval := Some(PollPeriod);
      }
    }

    /** The part of selectClass that displays the response, or restores `currentContent` when the fetch failed. */
    method ShowLoaded(now: int, currentContent: string, resp: FetchResult)
      requires Valid() && clock == now
      modifies this`text, this`saveTimeout, this`lastChange, this`language
      ensures text == SelectedText(currentContent, resp) && saveTimeout == Some(now + SaveDelay)
      ensures language == SelectedLanguage(old(language), resp)
      ensures Valid()
    {
      var loaded: string;
      match resp {
        case NetworkError =>
          loaded := if currentContent != "" && currentContent != LoadingText then currentContent else "";
        case HttpError(_) =>
          loaded := "";
        case Fetched(data) =>
          if data.content.Truthy() {
            if data.parsed.Some? {
              loaded := data.parsed.value.text;
              if data.parsed.value.language != "" {
                language := data.parsed.value.language;
              }
            } else {
              loaded := data.content.s;
            }
          } else {
            loaded := "";
          }
      }
      SetValue(now, loaded);
    }

    /**
     * confirmDeleteClass after the DELETE answered `ok`: the entry leaves
     * `classesMap` and, when it was the current class, the editor is cleared,
     * made read-only and no class is current. A failed DELETE changes nothing.
     */
    method ConfirmDeleteClass(now: int, classId: string, ok: bool)
      requires Valid() && clock <= now && NotOverdue(now)
      modifies this`classesMap, this`currentClassId, this`text, this`saveTimeout, this`lastChange,
        this`readOnly, this`clock
      ensures clock == now && Valid()
      ensures !ok ==>
        classesMap == old(classesMap) && currentClassId == old(currentClassId) && text == old(text)
        && saveTimeout == old(saveTimeout) && readOnly == old(readOnly)
      ensures ok ==> classesMap == old(classesMap) - {classId}
      ensures ok && old(currentClassId) == Some(classId) ==>
        currentClassId.None? && text == "" && readOnly && saveTimeout == Some(now + SaveDelay)
      ensures ok && old(currentClassId) != Some(classId) ==>
        currentClassId == old(currentClassId) && text == old(text) && saveTimeout == old(saveTimeout)
        && readOnly == old(readOnly)
    {
      clock := now;
      if !ok {
        return;
      }
      classesMap := classesMap - {classId};
      if currentClassId == Some(classId) {
        ClearEditor(now);
      }
    }

    /** The reset confirmDeleteClass applies when the deleted class was the current one. */
    method ClearEditor(now: int)
      requires Valid() && clock == now
      modifies this`currentClassId, this`text, this`saveTimeout, this`lastChange, this`readOnly
      ensures currentClassId.None? && text == "" && readOnly && saveTimeout == Some(now + SaveDelay)
      ensures Valid()
    {
      currentClassId := None;
      readOnly := true;
      SetValue(now, "");
    }
  }

  /** A page that has just selected class-1, whose note holds "a". */
  method SelectedAgent() returns (agent: EditorAgent)
    ensures fresh(agent) && agent.Valid()
    ensures agent.text == "a" && !agent.readOnly && !agent.hasFocus && agent.clock == 10
    ensures agent.saveTimeout == Some(1010) && !agent.recentlySaved && agent.pendingSaves == 0
    ensures agent.currentClassId == Some("class-1") && agent.updatePollingInterval.Some?
  {
    agent := new EditorAgent(map["class-1" := ClassEntry("Algebra", 0, None)], 0);
    var first := Fetched(NotesData(Str("{}"), Some(Blob("a", "", None, 0)), Some("Algebra"), Some(0)));
    agent.SelectClass(10, "class-1", first);
  }

  /** The same page after the owner typed "ab" and its save succeeded at 1200. */
  method SavedAgent() returns (agent: EditorAgent)
    ensures fresh(agent) && agent.Valid()
    ensures agent.text == "ab" && !agent.hasFocus && agent.clock == 1200
    ensures agent.recentlySaved && agent.recentlySavedTimeout == Some(2200) && agent.saveTimeout.None?
    ensures agent.currentClassId == Some("class-1") && agent.updatePollingInterval.Some?
  {
    agent := SelectedAgent();
    agent.LocalEdit(100, "ab");
    var request := agent.SaveTimerFires(1100, map[]);
    agent.SaveCompleted(1200, true);
  }

  /**
   * Any poll between this page's own successful save and the reset it arms
   * is withheld, whatever the response holds, so the displayed text stays.
   */
  method OwnSaveShieldsDisplay(agent: EditorAgent, saved: int, now: int, resp: FetchResult) returns (applied: bool)
    requires agent.Valid() && agent.clock <= saved && agent.NotOverdue(saved) && agent.pendingSaves > 0
    requires agent.updatePollingInterval.Some?
    requires saved <= now <= saved + CoolDown
    requires agent.saveTimeout.None? || now <= agent.saveTimeout.value
    modifies agent
    ensures !applied && agent.recentlySaved
    ensures agent.text == old(agent.text) && agent.language == old(agent.language)
  {
    agent.SaveCompleted(saved, true);
    applied := agent.CheckForUpdates(now, resp);
  }

  /** A response with text another client saved. */
  function OtherClientsText(): FetchResult {
    Fetched(NotesData(Str("{}"), Some(Blob("xyz", "", None, 0)), Some("Algebra"), Some(1)))
  }

  /**
   * In the trace of SavedAgent, another client's text is withheld by a poll
   * at 1500 and applied by the first poll after the reset at 2200.
   */
  method AppliedAfterCoolDown() returns (first: bool, second: bool)
    ensures !first && second
  {
    var agent := SavedAgent();
    first := agent.CheckForUpdates(1500, OtherClientsText());
    agent.RecentlySavedExpires(2200);
    second := agent.CheckForUpdates(2300, OtherClientsText());
  }

  /**
   * Once the current class is deleted, the save armed by clearing the editor
   * posts nothing and later polls change nothing.
   */
  method DeletedClassStopsSync(agent: EditorAgent, now: int, formatOptions: map<string, bool>, later: int,
                               resp: FetchResult) returns (request: Option<SaveRequest>, applied: bool)
    requires agent.Valid() && agent.clock <= now && agent.NotOverdue(now)
    requires agent.currentClassId.Some? && agent.updatePollingInterval.Some?
    requires now + SaveDelay <= later
    requires agent.recentlySavedTimeout.None? || later <= agent.recentlySavedTimeout.value
    modifies agent
    ensures request.None? && !applied
    ensures agent.currentClassId.None? && agent.text == "" && agent.readOnly
  {
    agent.ConfirmDeleteClass(now, agent.currentClassId.value, true);
    request := agent.SaveTimerFires(now + SaveDelay, formatOptions);
    applied := agent.CheckForUpdates(later, resp);
  }
}
