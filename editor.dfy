/**
 * The writing page of app/page.tsx: the editor text, the fifteen-minute
 * countdown, the font size, the dialogs, and the handlers that save, load and
 * delete history entries through the history hook.
 *
 * Each handler runs to completion before the next one; a React state update
 * is applied at once. The current time (Date.now) is a parameter.
 */
module Editor {
  import opened Wrappers
  import opened Ordering
  import opened HistoryStore
  import opened HistoryHook
  import opened Text

  /** Fifteen minutes, in seconds. */
  const InitialTime: int := 15 * 60
  const DefaultFontSize: int := 18
  const MinFontSize: int := 12
  const MaxFontSize: int := 32
  const FontStep: int := 2

  // ---------------------------------------------------------------------
  // Font size
  // ---------------------------------------------------------------------

  /** increaseFontSize: two pixels larger, never above 32. */
  function IncreasedFontSize(prev: int): (r: int)
    ensures r <= MaxFontSize
    ensures prev + FontStep <= MaxFontSize ==> r == prev + FontStep
    ensures prev + FontStep > MaxFontSize ==> r == MaxFontSize
  {
    Min(prev + FontStep, MaxFontSize)
  }

  /** decreaseFontSize: two pixels smaller, never below 12. */
  function DecreasedFontSize(prev: int): (r: int)
    ensures r >= MinFontSize
    ensures prev - FontStep >= MinFontSize ==> r == prev - FontStep
    ensures prev - FontStep < MinFontSize ==> r == MinFontSize
  {
    Max(prev - FontStep, MinFontSize)
  }

  /** The sizes the buttons can reach from the default: even, from 12 to 32. */
  predicate FontSizeOk(size: int)
  {
    MinFontSize <= size <= MaxFontSize && size % 2 == 0
  }

  datatype FontAction = Increase | Decrease | ResetSize

  function ApplyFontAction(size: int, action: FontAction): int
  {
    match action
    case Increase => IncreasedFontSize(size)
    case Decrease => DecreasedFontSize(size)
    case ResetSize => DefaultFontSize
  }

  /** The size after pressing the buttons, first to last. */
  function ApplyFontActions(size: int, actions: seq<FontAction>): int
    decreases |actions|
  {
    if actions == [] then size else ApplyFontActions(ApplyFontAction(size, actions[0]), actions[1..])
  }

  /** Whatever buttons are pressed, the size stays an even number from 12 to 32. */
  lemma {:induction false} FontSizeStaysOk(size: int, actions: seq<FontAction>)
    requires FontSizeOk(size)
    ensures FontSizeOk(ApplyFontActions(size, actions))
    decreases |actions|
  {
    if actions != [] {
      var next := ApplyFontAction(size, actions[0]);
      assert FontSizeOk(next);
      FontSizeStaysOk(next, actions[1..]);
    }
  }

  /** Below the largest size a step up is undone by a step down, and above the smallest the other way round. */
  lemma FontStepsUndo(size: int)
    requires FontSizeOk(size)
    ensures size < MaxFontSize ==> DecreasedFontSize(IncreasedFontSize(size)) == size
    ensures size > MinFontSize ==> IncreasedFontSize(DecreasedFontSize(size)) == size
  {
  }

  // ---------------------------------------------------------------------
  // Countdown
  // ---------------------------------------------------------------------

  /** One tick of the interval: one second less, stopping at zero. */
  function Countdown(prev: int): (r: int)
    ensures r >= 0
    ensures prev > 0 ==> r == prev - 1
    ensures prev <= 0 ==> r == 0
  {
    if prev > 0 then prev - 1 else 0
  }

  /** The time left after `n` ticks. */
  function AfterTicks(t: int, n: nat): int
    decreases n
  {
    if n == 0 then t else AfterTicks(Countdown(t), n - 1)
  }

  /** A countdown from t reaches zero after exactly t ticks and stays there. */
  lemma {:induction false} TicksReachZero(t: nat, n: nat)
    ensures AfterTicks(t, n) == if n <= t then t - n else 0
  {
    if n > 0 {
      TicksReachZero(Countdown(t), n - 1);
    }
  }

  // ---------------------------------------------------------------------
  // The autosave effect across renders
  // ---------------------------------------------------------------------

  /**
   * The autosave effect as written. Its dependencies include addEntry, which
   * the hook creates anew on every render, so the effect runs after every
   * render; a save that goes through updates the list, which renders the page
   * again. `stamps` is the clock at each run while the countdown stays at zero.
   */
  function AutosaveRunsAsWritten(v: HistoryView, text: string, stamps: seq<int>, host: Host, mirrorWritable: bool): (r: HistoryView)
    ensures |r.history| <= |v.history| + |stamps|
    ensures Trim(text) == "" ==> r == v
    decreases |stamps|
  {
    if stamps == [] || Trim(text) == "" then v
    else AutosaveRunsAsWritten(AfterAdd(v, Entry(text, stamps[0]), host, mirrorWritable), text, stamps[1..], host, mirrorWritable)
  }

  /** Two renders after the countdown reached zero save the same draft twice. */
  lemma AutosaveRepeatsAsWritten(text: string, first: int, second: int)
    requires Trim(text) != "" && first != second
    ensures var start := HistoryView([], map[], Absent);
            var r := AutosaveRunsAsWritten(start, text, [first, second], Healthy, true);
            r.history == [Entry(text, second), Entry(text, first)]
            && |r.history| > |start.history| + 1
  {
    var start := HistoryView([], map[], Absent);
    var once := AfterAdd(start, Entry(text, first), Healthy, true);
    SaveIntoEmpty(text, first);
    var twice := SaveAgain(once, text, second);
    assert [first, second][1..] == [second];
    assert AutosaveRunsAsWritten(once, text, [second], Healthy, true) == twice;
  }

  lemma SaveIntoEmpty(text: string, stamp: int)
    ensures var once := AfterAdd(HistoryView([], map[], Absent), Entry(text, stamp), Healthy, true);
            once.history == [Entry(text, stamp)] && once.store.Keys <= {stamp}
  {
  }

  lemma SaveAgain(v: HistoryView, text: string, stamp: int) returns (r: HistoryView)
    requires |v.history| == 1 && stamp !in v.store
    ensures r == AfterAdd(v, Entry(text, stamp), Healthy, true)
    ensures r.history == [Entry(text, stamp), v.history[0]]
  {
    r := AfterAdd(v, Entry(text, stamp), Healthy, true);
  }

  /**
   * The autosave effect as intended: the draft is saved once when the
   * countdown reaches zero, however often the page renders afterwards.
   */
  function AutosaveRunsIntended(v: HistoryView, text: string, stamps: seq<int>, host: Host, mirrorWritable: bool): (r: HistoryView)
    ensures |r.history| <= |v.history| + 1
    ensures r.history == v.history || (stamps != [] && r.history == Prepended(Entry(text, stamps[0]), v.history))
  {
    if stamps == [] || Trim(text) == "" then v
    else AfterAdd(v, Entry(text, stamps[0]), host, mirrorWritable)
  }

  // ---------------------------------------------------------------------
  // The page
  // ---------------------------------------------------------------------

  class Home {
    var text: string
    var timeLeft: int
    var isTimerRunning: bool
    var fontSize: int
    var isHistoryOpen: bool
    var newSessionDialogOpen: bool
    var deleteEntryDialogOpen: bool
    /** The timestamp waiting for confirmation in the delete dialog; null in the source is None. */
    var entryToDelete: Option<int>
    /** The useHistory hook the page uses. */
    const hook: HistoryState

    /** The countdown stays within fifteen minutes and the font size within its range. */
    ghost predicate Valid()
      reads this
    {
      0 <= timeLeft <= InitialTime && FontSizeOk(fontSize)
    }

    constructor (storage: BrowserStorage)
      ensures Valid()
      ensures text == "" && timeLeft == InitialTime && !isTimerRunning && fontSize == DefaultFontSize
      ensures !isHistoryOpen && !newSessionDialogOpen && !deleteEntryDialogOpen && entryToDelete == None
      ensures fresh(hook) && hook.storage == storage && hook.history == [] && hook.isLoading
    {
      text := "";
      timeLeft := InitialTime;
      isTimerRunning := false;
      fontSize := DefaultFontSize;
      isHistoryOpen := false;
      newSessionDialogOpen := false;
      deleteEntryDialogOpen := false;
      entryToDelete := None;
      hook := new HistoryState(storage);
    }

    /** The textarea's onChange. */
    method EditText(value: string)
      requires Valid()
      modifies this`text
      ensures Valid()
      ensures text == value
    {
      text := value;
    }

    method ToggleTimer()
      requires Valid()
      modifies this`isTimerRunning
      ensures Valid()
      ensures isTimerRunning == !old(isTimerRunning)
    {
      isTimerRunning := !isTimerRunning;
    }

    method ResetTimer()
      requires Valid()
      modifies this`isTimerRunning, this`timeLeft
      ensures Valid()
      ensures !isTimerRunning && timeLeft == InitialTime
    {
      isTimerRunning := false;
      timeLeft := InitialTime;
    }

    /** One firing of the interval, which is only armed while the timer runs and time is left. */
    method Tick()
      requires Valid()
      modifies this`timeLeft
      ensures Valid()
      ensures timeLeft == if old(isTimerRunning) && old(timeLeft) > 0 then Countdown(old(timeLeft)) else old(timeLeft)
    {
      if isTimerRunning && timeLeft > 0 {
        timeLeft := Countdown(timeLeft);
      }
    }

    /** saveCurrentText: a text with something besides white space is added to the history, stamped with `now`. */
    method SaveCurrentText(now: int, host: Host, mirrorWritable: bool)
      modifies hook`history, hook.storage
      ensures Trim(text) != "" ==> hook.View() == AfterAdd(old(hook.View()), Entry(text, now), host, mirrorWritable)
      ensures Trim(text) == "" ==> hook.View() == old(hook.View())
    {
      if Trim(text) != "" {
        hook.AddEntry(Entry(text, now), host, mirrorWritable);
      }
    }

    /** The effect that saves the text once the countdown has reached zero. */
    method AutosaveOnExpiry(now: int, host: Host, mirrorWritable: bool)
      modifies hook`history, hook.storage
      ensures timeLeft == 0 && Trim(text) != "" ==>
                hook.View() == AfterAdd(old(hook.View()), Entry(text, now), host, mirrorWritable)
      ensures !(timeLeft == 0 && Trim(text) != "") ==> hook.View() == old(hook.View())
    {
      if timeLeft == 0 && Trim(text) != "" {
        hook.AddEntry(Entry(text, now), host, mirrorWritable);
      }
    }

    /** startNewSession: ask first when there is text worth keeping, otherwise start over at once. */
    method StartNewSession()
      requires Valid()
      modifies this`text, this`timeLeft, this`isTimerRunning, this`newSessionDialogOpen
      ensures Valid()
      ensures Trim(old(text)) != "" ==>
                && newSessionDialogOpen && text == old(text)
                && timeLeft == old(timeLeft) && isTimerRunning == old(isTimerRunning)
      ensures Trim(old(text)) == "" ==>
                && text == "" && timeLeft == InitialTime && !isTimerRunning
                && newSessionDialogOpen == old(newSessionDialogOpen)
    {
      if Trim(text) == "" {
        ResetTimer();
        text := "";
      } else {
        newSessionDialogOpen := true;
      }
    }

    /** confirmNewSession: discard the text, reset the timer and close the dialog. */
    method ConfirmNewSession()
      requires Valid()
      modifies this`text, this`timeLeft, this`isTimerRunning, this`newSessionDialogOpen
      ensures Valid()
      ensures text == "" && timeLeft == InitialTime && !isTimerRunning && !newSessionDialogOpen
    {
      text := "";
      ResetTimer();
      newSessionDialogOpen := false;
    }

    /** loadHistoryEntry: put the entry's text in the editor and close the panel. */
    method LoadHistoryEntry(entry: Entry)
      requires Valid()
      modifies this`text, this`isHistoryOpen
      ensures Valid()
      ensures text == entry.text && !isHistoryOpen
    {
      text := entry.text;
      isHistoryOpen := false;
    }

    /** The history button: open the panel when closed, close it when open. */
    method ToggleHistoryPanel()
      requires Valid()
      modifies this`isHistoryOpen
      ensures Valid()
      ensures isHistoryOpen == !old(isHistoryOpen)
    {
      isHistoryOpen := !isHistoryOpen;
    }

    method IncreaseFontSize()
      requires Valid()
      modifies this`fontSize
      ensures Valid()
      ensures fontSize == IncreasedFontSize(old(fontSize))
    {
      fontSize := IncreasedFontSize(fontSize);
    }

    method DecreaseFontSize()
      requires Valid()
      modifies this`fontSize
      ensures Valid()
      ensures fontSize == DecreasedFontSize(old(fontSize))
    {
      fontSize := DecreasedFontSize(fontSize);
    }

    method ResetFontSize()
      requires Valid()
      modifies this`fontSize
      ensures Valid()
      ensures fontSize == DefaultFontSize
    {
      fontSize := DefaultFontSize;
    }

    /** handleDeleteEntry: remember the timestamp and open the confirmation dialog. */
    method HandleDeleteEntry(timestamp: int)
      requires Valid()
      modifies this`entryToDelete, this`deleteEntryDialogOpen
      ensures Valid()
      ensures entryToDelete == Some(timestamp) && deleteEntryDialogOpen
    {
      entryToDelete := Some(timestamp);
      deleteEntryDialogOpen := true;
    }

    /**
     * The delete dialog's Cancel button: its own handler forgets the
     * timestamp, then the dialog closes itself through onOpenChange(false).
     */
    method CancelDeleteEntry()
      requires Valid()
      modifies this`entryToDelete, this`deleteEntryDialogOpen
      ensures Valid()
      ensures entryToDelete == None && !deleteEntryDialogOpen
    {
      entryToDelete := None;
      deleteEntryDialogOpen := false;
    }

    /** Escape on the delete dialog: onOpenChange(false) closes it and the timestamp stays remembered. */
    method DismissDeleteDialog()
      requires Valid()
      modifies this`deleteEntryDialogOpen
      ensures Valid()
      ensures !deleteEntryDialogOpen
    {
      deleteEntryDialogOpen := false;
    }

    /**
     * The new-session dialog's Cancel button, or Escape: onOpenChange(false)
     * closes the dialog and the text and the timer stay as they are.
     */
    method DismissNewSessionDialog()
      requires Valid()
      modifies this`newSessionDialogOpen
      ensures Valid()
      ensures !newSessionDialogOpen
    {
      newSessionDialogOpen := false;
    }

    /**
     * The delete dialog's Delete button: confirmDeleteEntry, then the dialog
     * closes itself through onOpenChange(false). The handler tests the
     * timestamp for truth, so nothing is deleted or forgotten when none is
     * remembered and also when the remembered timestamp is 0; the dialog
     * closes either way.
     */
    method ConfirmDeleteEntry(host: Host, mirrorWritable: bool)
      requires Valid()
      modifies this`entryToDelete, this`deleteEntryDialogOpen, hook`history, hook.storage
      ensures Valid()
      ensures !deleteEntryDialogOpen
      ensures old(entryToDelete).Some? && old(entryToDelete).value != 0 ==>
                && hook.View() == AfterDelete(old(hook.View()), old(entryToDelete).value, host, mirrorWritable)
                && entryToDelete == None
      ensures !(old(entryToDelete).Some? && old(entryToDelete).value != 0) ==>
                && hook.View() == old(hook.View())
                && entryToDelete == old(entryToDelete)
    {
      if entryToDelete.Some? && entryToDelete.value != 0 {
        var _ := hook.DeleteEntry(entryToDelete.value, host, mirrorWritable);
        deleteEntryDialogOpen := false;
        entryToDelete := None;
      }
      deleteEntryDialogOpen := false;
    }

    /** The clear dialog's action: clear the history and report whether that went through. */
    method ConfirmClearHistory(host: Host) returns (ok: bool)
      modifies hook`history, hook.storage
      ensures ok <==> host.Healthy?
      ensures hook.View() == AfterClear(old(hook.View()), host)
    {
      ok := hook.ClearHistory(host);
    }

    /** The label of the countdown display. */
    function TimerLabel(): (shown: string)
      reads this
      requires Valid()
      ensures ParseTime(shown) == Some(timeLeft)
    {
      FormatTimeRoundTrip(timeLeft);
      FormatTime(timeLeft)
    }
  }
}
