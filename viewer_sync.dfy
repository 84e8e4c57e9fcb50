/**
 * The shared viewer page (frontend/static/js/viewer.js) as a state machine:
 * the module globals `pollInterval`, `lastContent`, `isEditMode`,
 * `recentlySaved`, `recentlySavedTimeout`, the `saveTimeout` of the
 * autosave listener, and the parts of the page the sync logic writes
 * (displayed text, language, class-name and last-updated labels).
 *
 * Events and timers are modelled as in EditorSync. The autosave listener
 * exists only in edit mode; there every change of the displayed text,
 * programmatic or typed, re-arms the 500 ms debounce.
 */
module ViewerSync {
  import opened Wrappers
  import opened Text
  import opened SyncTypes

  const ViewerSaveDelay: int := 500
  const ViewerCoolDown: int := 1000
  const InitialText: string := "Loading..."
  const NoNotesText: string := "No notes available"
  const FailureText: string := "Failed to load notes. Please try refreshing the page."

  /** startPolling's period: 1000 ms in edit mode, 2000 ms in view mode. */
  function PollPeriodFor(isEditMode: bool): nat
  {
    if isEditMode then 1000 else 2000
  }

  /**
   * The gate for parsed remote text: it is applied when the viewer is not
   * being edited (unfocused, or read-only mode) and no save of this page is
   * recent.
   */
  predicate ViewerApplies(focused: bool, isEditMode: bool, recentlySaved: bool) {
    (!focused || !isEditMode) && !recentlySaved
  }

  /**
   * The text loadNotes puts on display for a body whose content differs from
   * `lastContent`, or None when it leaves the display alone.
   */
  function LoadedDisplay(data: NotesData, focused: bool, isEditMode: bool, recentlySaved: bool): (r: Option<string>)
    // Empty or null content always shows the placeholder, whatever the gate says.
    ensures !data.content.Truthy() ==> r == Some(NoNotesText)
    // A parsed blob is shown exactly when the gate opens.
    ensures data.content.Truthy() && data.parsed.Some? ==>
      (r.Some? <==> ViewerApplies(focused, isEditMode, recentlySaved))
      && (r.Some? ==> r.value == data.parsed.value.text)
    // Unparsable content is shown raw unless the viewer is being edited; the cool-down is not consulted.
    ensures data.content.Truthy() && data.parsed.None? ==>
      r == (if !focused || !isEditMode then Some(data.content.s) else None)
    // Outside edit mode only the cool-down can withhold anything.
    ensures !isEditMode && !recentlySaved ==> r.Some?
  {
    if data.content.Truthy() then
      match data.parsed
      case Some(blob) => if ViewerApplies(focused, isEditMode, recentlySaved) then Some(blob.text) else None
      case None => if !focused || !isEditMode then Some(data.content.s) else None
    else Some(NoNotesText)
  }

  /** `classId.split('-')[1]`, which JavaScript prints as "undefined" when there is no dash. */
  function SecondSegment(classId: string): (r: string)
    ensures '-' in classId ==> r == Split(classId, '-')[1]
    ensures '-' !in classId ==> r == "undefined"
  {
    SecondPiece(classId, '-').GetOr("undefined")
  }

  /** `data.class_name || \`Class ${classId.split('-')[1]}\`` */
  function ClassLabel(className: Option<string>, classId: string): (r: string)
    // The label is never blank.
    ensures r != ""
    // It is the note's name exactly when the note has a non-empty name.
    ensures className == Some(r) <==> className.Some? && className.value != ""
    // Otherwise it is built from the id.
    ensures className != Some(r) ==> r == "Class " + SecondSegment(classId)
  {
    if className.Some? && className.value != "" then className.value else "Class " + SecondSegment(classId)
  }

  /** The deadline of a timer handle that is still armed, as a multiset of at most one. */
  function Armed(handle: Option<int>): (m: multiset<int>)
    ensures |m| <= 1
    ensures forall d :: d in m <==> handle == Some(d)
  {
    if handle.Some? then multiset{handle.value} else multiset{}
  }

  class ViewerAgent {
    /** The note shown, from the page's `data-classroom-id`. */
    const classId: string
    /** `edit=true` in the page URL. */
    const isEditMode: bool
    /** Period of the poll interval, when one is installed. */
    var pollInterval: Option<nat>
    /** The content of the last body whose content differed from the one before; None for JavaScript's initial null. */
    var lastContent: Option<Content>
    var recentlySaved: bool
    /** The reset `recentlySavedTimeout` refers to, while it has not fired. */
    var recentlySavedTimeout: Option<int>
    /**
     * Resets armed by earlier successful saves and no longer referred to by
     * `recentlySavedTimeout`: a later success overwrote the handle without
     * clearing them, so nothing cancels them and each still lowers the flag.
     */
    var orphanedResets: multiset<int>
    /** Deadline of the autosave listener's pending save. */
    var saveTimeout: Option<int>
    var text: string
    var language: string
    var hasFocus: bool
    /** The `class-name` and `last-updated` labels; None until first written. */
    var classNameLabel: Option<string>
    var lastUpdatedLabel: Option<int>
    /** Save requests issued whose responses have not arrived. */
    var pendingSaves: nat
    var clock: int
    ghost var lastChange: int

    ghost predicate Valid()
      reads this
    {
      && (pollInterval.Some? ==> pollInterval.value == PollPeriodFor(isEditMode))
      && (!isEditMode ==> !recentlySaved && recentlySavedTimeout.None? && saveTimeout.None? && pendingSaves == 0
                          && orphanedResets == multiset{})
      && (saveTimeout.Some? ==> saveTimeout.value == lastChange + ViewerSaveDelay && lastChange <= clock)
      && (recentlySavedTimeout.Some? ==> clock <= recentlySavedTimeout.value <= clock + ViewerCoolDown)
      && (forall d :: d in orphanedResets ==> clock <= d <= clock + ViewerCoolDown)
      // The flag is always on its way down: a request is out or its reset is armed.
      && (recentlySaved ==> pendingSaves > 0 || recentlySavedTimeout.Some?)
    }

    predicate NotOverdue(now: int)
      reads this
    {
      (saveTimeout.None? || now <= saveTimeout.value)
      && (recentlySavedTimeout.None? || now <= recentlySavedTimeout.value)
      && (forall d :: d in orphanedResets ==> now <= d)
    }

    /** The page after initializeEditor: "Loading..." displayed, polling started, nothing loaded yet. */
    constructor(classId: string, isEditMode: bool, now: int)
      ensures Valid()
      ensures this.classId == classId && this.isEditMode == isEditMode
      ensures text == InitialText && language == "plaintext" && lastContent.None?
      ensures pollInterval == Some(if isEditMode then 1000 else 2000)
      ensures !recentlySaved && saveTimeout.None? && recentlySavedTimeout.None? && pendingSaves == 0
      ensures orphanedResets == multiset{}
      ensures !hasFocus && classNameLabel.None? && lastUpdatedLabel.None? && clock == now
    {
      this.classId := classId;
      this.isEditMode := isEditMode;
      pollInterval := None;
      lastContent := None;
      recentlySaved := false;
      recentlySavedTimeout := None;
      orphanedResets := multiset{};
      saveTimeout := None;
      text := InitialText;
      language := "plaintext";
      hasFocus := false;
      classNameLabel := None;
      lastUpdatedLabel := None;
      pendingSaves := 0;
      clock := now;
      lastChange := now;
      new;
      StartPolling();
    }

    /** startPolling: any earlier interval is cleared, so exactly one is installed, at the mode's period. */
    method StartPolling()
      requires Valid()
      modifies this`pollInterval
      ensures pollInterval == Some(if isEditMode then 1000 else 2000)
      ensures Valid()
    {
      pollInterval := None;
      pollInterval := Some(PollPeriodFor(isEditMode));
    }

    /** The beforeunload handler clears the poll interval. */
    method Unload()
      requires Valid()
      modifies this`pollInterval
      ensures pollInterval.None? && Valid()
    {
      pollInterval := None;
    }

    /**
     * `editor.setValue(t)`: in edit mode the autosave listener cancels the
     * pending save and arms one 500 ms later; in view mode there is no listener.
     */
    method SetValue(now: int, t: string)
      requires Valid() && clock == now
      modifies this`text, this`saveTimeout, this`lastChange
      ensures text == t
      ensures isEditMode ==> saveTimeout == Some(now + ViewerSaveDelay) && lastChange == now
      ensures !isEditMode ==> saveTimeout == old(saveTimeout) && lastChange == old(lastChange)
      ensures Valid()
    {
      text := t;
      if isEditMode {
        saveTimeout := Some(now + ViewerSaveDelay);
        lastChange := now;
      }
    }

    /** Typing; the viewer is read-only outside edit mode. */
    method LocalEdit(now: int, newText: string)
      requires Valid() && clock <= now && NotOverdue(now)
      requires isEditMode
      modifies this`text, this`saveTimeout, this`lastChange, this`clock
      ensures text == newText && saveTimeout == Some(now + ViewerSaveDelay) && clock == now
      ensures Valid()
    {
      clock := now;
      SetValue(now, newText);
    }

    method SetFocus(now: int, focused: bool)
      requires Valid() && clock <= now && NotOverdue(now)
      modifies this`hasFocus, this`clock
      ensures hasFocus == focused && clock == now && Valid()
    {
      hasFocus := focused;
      clock := now;
    }

    /**
     * One run of loadNotes with the response `resp`.
     * - A failed fetch or error status leaves `lastContent` and the labels
     *   alone and displays the failure message.
     * - A body whose content equals `lastContent` changes nothing.
     * - Any other body records its content in `lastContent` (even when the
     *   display is withheld), writes the class-name label and, when present,
     *   the last-updated label, and displays LoadedDisplay's choice.
     * Only a parsed blob that passed the gate counts as `applied`; it sets
     * the language it names, and in edit mode restores the cursor and shows
     * a toast.
     */
    method LoadNotes(now: int, resp: FetchResult) returns (applied: bool, cursorRestored: bool, toast: bool)
      requires Valid() && clock <= now && NotOverdue(now)
      modifies this`lastContent, this`classNameLabel, this`text, this`saveTimeout, this`lastChange,
        this`language, this`lastUpdatedLabel, this`clock
      ensures clock == now && Valid()
      ensures !resp.Fetched? ==>
        text == FailureText && lastContent == old(lastContent) && !applied
        && classNameLabel == old(classNameLabel) && lastUpdatedLabel == old(lastUpdatedLabel)
        && language == old(language)
        && (isEditMode ==> saveTimeout == Some(now + ViewerSaveDelay))
        && (!isEditMode ==> saveTimeout == old(saveTimeout))
      ensures resp.Fetched? && old(lastContent) == Some(resp.data.content) ==>
        text == old(text) && lastContent == old(lastContent) && !applied
        && classNameLabel == old(classNameLabel) && lastUpdatedLabel == old(lastUpdatedLabel)
        && language == old(language) && saveTimeout == old(saveTimeout)
      ensures resp.Fetched? && old(lastContent) != Some(resp.data.content) ==>
        var shown := LoadedDisplay(resp.data, hasFocus, isEditMode, recentlySaved);
        lastContent == Some(resp.data.content)
        && classNameLabel == Some(ClassLabel(resp.data.className, classId))
        && lastUpdatedLabel == (if resp.data.lastUpdated.Some? then resp.data.lastUpdated else old(lastUpdatedLabel))
        && text == shown.GetOr(old(text))
        && saveTimeout == (if isEditMode && shown.Some? then Some(now + ViewerSaveDelay) else old(saveTimeout))
      ensures applied <==>
        (resp.Fetched? && old(lastContent) != Some(resp.data.content) && resp.data.content.Truthy()
         && resp.data.parsed.Some? && ViewerApplies(hasFocus, isEditMode, recentlySaved))
      ensures applied ==> language == (if resp.data.parsed.value.language != "" then resp.data.parsed.value.language else old(language))
      ensures !applied ==> language == old(language)
      ensures cursorRestored <==> applied && isEditMode
      ensures toast <==> applied && isEditMode
    {
      clock := now;
      applied, cursorRestored, toast := false, false, false;
      if !resp.Fetched? {
        SetValue(now, FailureText);
        return;
      }
      if lastContent == Some(resp.data.content) {
        return;
      }
      applied, cursorRestored, toast := AcceptBody(now, resp.data);
    }

    /** The part of loadNotes for a body whose content differs from `lastContent`. */
    method AcceptBody(now: int, data: NotesData) returns (applied: bool, cursorRestored: bool, toast: bool)
      requires Valid() && clock == now
      modifies this`lastContent, this`classNameLabel, this`text, this`saveTimeout, this`lastChange,
        this`language, this`lastUpdatedLabel
      ensures Valid()
      ensures var shown := LoadedDisplay(data, hasFocus, isEditMode, recentlySaved);
        lastContent == Some(data.content)
        && classNameLabel == Some(ClassLabel(data.className, classId))
        && lastUpdatedLabel == (if data.lastUpdated.Some? then data.lastUpdated else old(lastUpdatedLabel))
        && text == shown.GetOr(old(text))
        && saveTimeout == (if isEditMode && shown.Some? then Some(now + ViewerSaveDelay) else old(saveTimeout))
      ensures applied <==> data.content.Truthy() && data.parsed.Some? && ViewerApplies(hasFocus, isEditMode, recentlySaved)
      ensures applied ==> language == (if data.parsed.value.language != "" then data.parsed.value.language else old(language))
      ensures !applied ==> language == old(language)
      ensures cursorRestored <==> applied && isEditMode
      ensures toast <==> applied && isEditMode
    {
      lastContent := Some(data.content);
      classNameLabel := Some(ClassLabel(data.className, classId));
      applied, cursorRestored, toast := ShowBody(now, data);
      if data.lastUpdated.Some? {
        lastUpdatedLabel := data.lastUpdated;
      }
    }

    /** The part of loadNotes that puts a new body's content on display. */
    method ShowBody(now: int, data: NotesData) returns (applied: bool, cursorRestored: bool, toast: bool)
      requires Valid() && clock == now
      modifies this`text, this`saveTimeout, this`lastChange, this`language
      ensures Valid()
      ensures var shown := LoadedDisplay(data, hasFocus, isEditMode, recentlySaved);
        text == shown.GetOr(old(text))
        && saveTimeout == (if isEditMode && shown.Some? then Some(now + ViewerSaveDelay) else old(saveTimeout))
      ensures applied <==> data.content.Truthy() && data.parsed.Some? && ViewerApplies(hasFocus, isEditMode, recentlySaved)
      ensures applied ==> language == (if data.parsed.value.language != "" then data.parsed.value.language else old(language))
      ensures !applied ==> language == old(language)
      ensures cursorRestored <==> applied && isEditMode
      ensures toast <==> applied && isEditMode
    {
      applied, cursorRestored, toast := false, false, false;
      if data.content.Truthy() {
        match data.parsed {
          case Some(blob) =>
            if (!hasFocus || !isEditMode) && !recentlySaved {
              SetValue(now, blob.text);
              cursorRestored := isEditMode;
              if blob.language != "" {
                language := blob.language;
              }
              toast := isEditMode;
              applied := true;
            }
          case None =>
            if !hasFocus || !isEditMode {
              SetValue(now, data.content.s);
            }
        }
      } else {
        SetValue(now, NoNotesText);
      }
    }

    /**
     * The autosave timer fires and runs saveNotes: `recentlySaved` is raised
     * and the reset its handle refers to is cancelled BEFORE the request
     * leaves with the displayed text and language. Orphaned resets stay armed.
     */
    method SaveTimerFires(now: int) returns (request: Option<SaveRequest>)
      requires Valid() && clock <= now && NotOverdue(now)
      requires saveTimeout == Some(now)
      modifies this`saveTimeout, this`recentlySaved, this`recentlySavedTimeout, this`pendingSaves, this`clock
      ensures now == lastChange + ViewerSaveDelay && isEditMode
      ensures saveTimeout.None? && clock == now
      ensures request == Some(SaveRequest(classId, Blob(text, language, None, now), true))
      ensures recentlySaved && recentlySavedTimeout.None? && pendingSaves == old(pendingSaves) + 1
      ensures Valid()
    {
      saveTimeout := None;
      clock := now;
      recentlySaved := true;
      recentlySavedTimeout := None;
      request := Some(SaveRequest(classId, Blob(text, language, None, now), true));
      pendingSaves := pendingSaves + 1;
    }

    /**
     * A save response arrives. Success arms a reset 1000 ms later and
     * stamps the last-updated label, leaving the flag as it is; a reset the
     * handle still referred to is not cleared but orphaned. Failure lowers
     * the flag at once.
     */
    method SaveCompleted(now: int, ok: bool)
      requires Valid() && clock <= now && NotOverdue(now)
      requires pendingSaves > 0
      modifies this`recentlySaved, this`recentlySavedTimeout, this`orphanedResets, this`pendingSaves,
        this`lastUpdatedLabel, this`clock
      ensures pendingSaves == old(pendingSaves) - 1 && clock == now
      ensures ok ==>
        recentlySaved == old(recentlySaved) && recentlySavedTimeout == Some(now + ViewerCoolDown)
        && orphanedResets == old(orphanedResets) + Armed(old(recentlySavedTimeout))
        && lastUpdatedLabel == Some(now)
      ensures !ok ==>
        !recentlySaved && recentlySavedTimeout == old(recentlySavedTimeout)
        && orphanedResets == old(orphanedResets) && lastUpdatedLabel == old(lastUpdatedLabel)
      ensures Valid()
    {
      if ok {
        lastUpdatedLabel := Some(now);
        ArmReset(now);
        pendingSaves := pendingSaves - 1;
      } else {
        pendingSaves := pendingSaves - 1;
        clock := now;
        recentlySaved := false;
      }
    }

    /**
     * `recentlySavedTimeout = setTimeout(..., 1000)` at `now`: the handle
     * refers to the new reset and the one it referred to stays armed, orphaned.
     */
    method ArmReset(now: int)
      requires Valid() && clock <= now && NotOverdue(now) && isEditMode
      modifies this`recentlySavedTimeout, this`orphanedResets, this`clock
      ensures recentlySavedTimeout == Some(now + ViewerCoolDown) && clock == now
      ensures orphanedResets == old(orphanedResets) + Armed(old(recentlySavedTimeout))
      ensures Valid()
    {
      var orphaned := Armed(recentlySavedTimeout);
      assert forall d :: d in orphaned ==> now <= d <= now + ViewerCoolDown;
      assert forall d :: d in orphanedResets ==> now <= d <= now + ViewerCoolDown;
      clock := now;
      orphanedResets := orphanedResets + orphaned;
      recentlySavedTimeout := Some(now + ViewerCoolDown);
      assert forall d :: d in orphanedResets ==> d in old(orphanedResets) || d in orphaned;
    }

    /** The reset the handle refers to fires and lowers the flag. */
    method RecentlySavedExpires(now: int)
      requires Valid() && clock <= now && NotOverdue(now)
      requires recentlySavedTimeout == Some(now)
      modifies this`recentlySaved, this`recentlySavedTimeout, this`clock
      ensures !recentlySaved && recentlySavedTimeout.None? && clock == now
      ensures Valid()
    {
      recentlySaved := false;
      recentlySavedTimeout := None;
      clock := now;
    }

    /**
     * An orphaned reset fires. It lowers the flag too, even while the reset
     * of a later save is armed or a later save is in flight.
     */
    method OrphanedResetFires(now: int)
      requires Valid() && clock <= now && NotOverdue(now)
      requires now in orphanedResets
      modifies this`recentlySaved, this`orphanedResets, this`clock
      ensures !recentlySaved && orphanedResets == old(orphanedResets) - multiset{now} && clock == now
      ensures Valid()
    {
      recentlySaved := false;
      orphanedResets := orphanedResets - multiset{now};
      clock := now;
    }
  }

  /**
   * A body is acted on at most once: a second poll returning the same
   * content changes nothing, even when the viewer lost focus in between, so
   * a change the first poll withheld stays withheld.
   */
  method WithheldChangeStaysWithheld(viewer: ViewerAgent, first: int, second: int, resp: FetchResult)
    returns (firstApplied: bool, secondApplied: bool, shown: string)
    requires viewer.Valid() && viewer.clock <= first <= second && viewer.NotOverdue(second)
    requires second <= first + ViewerSaveDelay
    requires resp.Fetched?
    modifies viewer
    ensures !secondApplied && viewer.text == shown && viewer.lastContent == Some(resp.data.content)
    ensures !firstApplied ==> viewer.language == old(viewer.language)
  {
    var c, t;
    firstApplied, c, t := viewer.LoadNotes(first, resp);
    shown := viewer.text;
    viewer.SetFocus(second, false);
    secondApplied, c, t := viewer.LoadNotes(second, resp);
  }

  /** An edit-mode viewer that loaded "base" and then was typed into while focused. */
  method EditingViewer() returns (viewer: ViewerAgent)
    ensures fresh(viewer) && viewer.Valid() && viewer.isEditMode
    ensures viewer.text == "mine" && viewer.hasFocus && viewer.clock == 30
    ensures viewer.lastContent == Some(Str("{}")) && !viewer.recentlySaved
    ensures viewer.saveTimeout == Some(530) && viewer.recentlySavedTimeout.None?
    ensures viewer.orphanedResets == multiset{} && viewer.pendingSaves == 0
  {
    viewer := new ViewerAgent("class-7", true, 0);
    var initial := Fetched(NotesData(Str("{}"), Some(Blob("base", "", None, 0)), Some("Physics"), Some(0)));
    var a, c, t := viewer.LoadNotes(10, initial);
    viewer.SetFocus(20, true);
    viewer.LocalEdit(30, "mine");
  }

  /**
   * In the trace of EditingViewer, two saves overlap (sent at 530 and 1040)
   * and succeed at 1130 and 1230. The second success orphans the reset the
   * first armed instead of clearing it.
   */
  method OverlappingSaves() returns (viewer: ViewerAgent)
    ensures fresh(viewer) && viewer.Valid() && viewer.isEditMode && viewer.clock == 1230
    ensures viewer.recentlySaved && viewer.recentlySavedTimeout == Some(2230)
    ensures viewer.orphanedResets == multiset{2130} && viewer.pendingSaves == 0
    ensures viewer.lastContent == Some(Str("{}")) && viewer.saveTimeout.None?
  {
    viewer := EditingViewer();
    var first := viewer.SaveTimerFires(530);
    viewer.LocalEdit(540, "mine2");
    var second := viewer.SaveTimerFires(1040);
    viewer.SaveCompleted(1130, true);
    viewer.SaveCompleted(1230, true);
  }

  /**
   * In the trace of OverlappingSaves, the orphaned reset lowers the flag at
   * 2130, before the reset of the later save is due, and an unfocused poll
   * at 2150 applies another client's text.
   */
  method OrphanedResetOpensGate() returns (applied: bool, text: string, pending: Option<int>)
    ensures applied && text == "theirs" && pending == Some(2230)
  {
    var viewer := OverlappingSaves();
    viewer.SetFocus(1300, false);
    viewer.OrphanedResetFires(2130);
    var remote := Fetched(NotesData(Str("{\"v\":2}"), Some(Blob("theirs", "", None, 0)), Some("Physics"), Some(1)));
    var c, t;
    applied, c, t := viewer.LoadNotes(2150, remote);
    text := viewer.text;
    pending := viewer.recentlySavedTimeout;
  }

  /**
   * In edit mode a failed poll puts the failure message on display, which
   * re-arms the autosave: 500 ms later the message itself is posted as the
   * note's text.
   */
  method FailedPollInEditModeIsSaved(viewer: ViewerAgent, now: int) returns (request: Option<SaveRequest>)
    requires viewer.Valid() && viewer.isEditMode && viewer.clock <= now
    requires viewer.NotOverdue(now + ViewerSaveDelay)
    modifies viewer
    ensures request.Some? && request.value.blob.text == FailureText && request.value.viewEdit
    ensures request.value.classId == viewer.classId
  {
    var a, c, t := viewer.LoadNotes(now, NetworkError);
    request := viewer.SaveTimerFires(now + ViewerSaveDelay);
  }
}
