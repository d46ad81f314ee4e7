/** The `QueueViewerApp` window: the frame it keeps from the last load, the
    "Execute Query" button it enables and disables, the table its output area
    shows, and the frame it registers with the SQL engine under `azq`. Each
    button handler is a method on the class, specified by a function from the
    window state before the press to the state after it and the dialog it
    pops up. */
module Viewer {
  import opened Wrappers
  import opened Text
  import opened Broker
  import opened Fetcher
  import opened Normalizer
  import opened Tables

  const QueueNameMissing: string := "Please enter a queue name."
  const ReceiveFailed: string := "Failed to receive messages."
  const QueueEmpty: string := "Queue is empty."
  const NoData: string := "No data in queue."
  const QueryFailed: string := "Query execution failed."
  const ResetFailed: string := "Failed to reset."

  /** What the widgets hold when a button is pressed: the environment
      drop-down, the queue-name entry, the queue-type radio buttons, the two
      sequence-number entries, the "Display full message" check box and the
      query text. */
  datatype Form = Form(
    environment: string,
    queueName: string,
    queueType: QueueType,
    minSequence: string,
    maxSequence: string,
    fullMessage: bool,
    query: string)

  /** The message box a handler pops up, if any. */
  datatype Dialog = NoDialog | ErrorBox(message: string) | InfoBox(message: string)

  /** `validate_digits`: an entry may hold digits only, or nothing. */
  function ValidateDigits(newValue: string): (ok: bool)
    ensures ok <==> AllDigits(newValue)
  {
    (newValue != "" && AllDigits(newValue)) || newValue == ""
  }

  /** Both sequence-number entries passed their key validator. */
  predicate ValidEntries(f: Form) {
    ValidateDigits(f.minSequence) && ValidateDigits(f.maxSequence)
  }

  /** The connection table read from the settings file: environment name to
      namespace. */
  predicate AllOrdered(connections: map<string, Namespace>) {
    forall e :: e in connections ==> connections[e].Ordered()
  }

  /** Why `load_messages` builds no frame. */
  datatype LoadError = UnknownEnvironment | Receive(cause: FetchError)

  /** Whether the dead-letter radio button is selected. */
  function DeadLetterSelected(f: Form): bool {
    f.queueType == DeadLetter
  }

  /** The frame `load_messages` builds for a non-blank queue name: the
      environment must be configured, then the queue is read through the
      window given by the entries and its messages are normalised. */
  ghost function LoadedFrame(f: Form, connections: map<string, Namespace>): (r: Result<Table, LoadError>)
    requires ValidEntries(f) && AllOrdered(connections)
    ensures f.environment !in connections ==> r == Failure(UnknownEnvironment)
    ensures r.Failure? && r.error.Receive? ==> f.environment in connections
    ensures r.Success? ==> WellFormed(r.value)
    ensures r.Success? && !IsEmpty(r.value) ==> r.value.columns == RowColumns(DeadLetterSelected(f))
  {
    if f.environment !in connections then Failure(UnknownEnvironment)
    else
      StripDigits(f.minSequence);
      StripDigits(f.maxSequence);
      var w := WindowOf(Strip(f.minSequence), Strip(f.maxSequence));
      match FetchOutcome(connections[f.environment], TargetQueue(Strip(f.queueName), f.queueType), w)
      case Failure(e) => Failure(Receive(e))
      case Success(ms) => Success(FromRows(Normalized(ms, DeadLetterSelected(f)), DeadLetterSelected(f)))
  }

  /** The window's state: the last loaded frame, whether "Execute Query" is
      enabled, the table the output area shows (none before the first
      rendering) and the frame registered as `azq`. */
  datatype ViewState = ViewState(lastDf: Table, executeEnabled: bool, output: Option<Table>, azq: Option<Table>)

  /** A state after a handler, with what the handler yields. */
  datatype Step<T> = Step(state: ViewState, result: T)

  /** The state every handler keeps: the kept frame has a value in every
      column of every row, and the button is enabled only while a non-empty
      frame is kept and a table is shown. */
  predicate Consistent(s: ViewState) {
    && WellFormed(s.lastDf)
    && (s.executeEnabled ==> !IsEmpty(s.lastDf) && s.output.Some?)
  }

  /** The display copy of `df` under the form's check box and queue type. */
  function DisplayOf(df: Table, f: Form): Result<Table, string> {
    DisplayCopy(df, f.fullMessage, DeadLetterSelected(f))
  }

  /** `display_table(df)`: disable the button; an empty frame pops up "Queue
      is empty."; a non-empty one is rendered and the button enabled, unless
      making its display copy raises, which escapes with the missing column.
      The kept frame and the registration are never touched, and the output
      area changes only when a table is rendered. */
  function Display(s: ViewState, df: Table, f: Form): (r: Step<Result<Dialog, string>>)
    ensures r.state.lastDf == s.lastDf && r.state.azq == s.azq
    ensures r.state.executeEnabled <==> r.result == Success(NoDialog)
    ensures r.state.executeEnabled ==> !IsEmpty(df) && DisplayOf(df, f).Success? && r.state.output == Some(DisplayOf(df, f).value)
    ensures !r.state.executeEnabled ==> r.state.output == s.output
    ensures r.result.Failure? <==> DisplayOf(df, f).Failure?
    ensures r.result.Failure? ==> r.result.error in DisplayedColumns(DeadLetterSelected(f)) && r.result.error !in df.columns
    ensures r.result.Success? && r.result.value != NoDialog ==> IsEmpty(df) && r.result.value == InfoBox(QueueEmpty)
  {
    var off := s.(executeEnabled := false);
    var copy := DisplayOf(df, f);
    if IsEmpty(df) then Step(off, Success(InfoBox(QueueEmpty)))
    else if copy.Failure? then Step(off, Failure(copy.error))
    else Step(off.(output := Some(copy.value), executeEnabled := true), Success(NoDialog))
  }

  /** The `except` branch of `load_messages`. */
  function LoadFailed(s: ViewState): Step<Dialog> {
    Step(s.(lastDf := EmptyTable, executeEnabled := false), ErrorBox(ReceiveFailed))
  }

  /** "Load Messages": a blank queue name only pops up an error; otherwise
      the frame is built and kept, then displayed, and any failure on the
      way discards the kept frame and disables the button. */
  ghost function Load(s: ViewState, f: Form, connections: map<string, Namespace>): (r: Step<Dialog>)
    requires ValidEntries(f) && AllOrdered(connections)
    ensures r.state.azq == s.azq
    ensures Strip(f.queueName) == "" ==> r == Step(s, ErrorBox(QueueNameMissing))
    ensures Strip(f.queueName) != "" && LoadedFrame(f, connections).Failure? ==>
              r == Step(s.(lastDf := EmptyTable, executeEnabled := false), ErrorBox(ReceiveFailed))
    ensures Consistent(s) ==> Consistent(r.state)
  {
    if Strip(f.queueName) == "" then Step(s, ErrorBox(QueueNameMissing))
    else
      match LoadedFrame(f, connections)
      case Failure(_) => LoadFailed(s)
      case Success(t) =>
        var shown := Display(s.(lastDf := t), t, f);
        if shown.result.Failure? then LoadFailed(s) else Step(shown.state, shown.result.value)
  }

  /** The SQL engine: the result of a query over the frame registered as
      `azq`, or the engine's error. */
  type Engine = (Table, string) -> Result<Table, string>

  /** "Execute Query": with a frame kept, register it as `azq`, run the
      stripped query and display the result; a failing query or display
      pops up "Query execution failed.". */
  function Query(s: ViewState, f: Form, engine: Engine): (r: Step<Dialog>)
    ensures r.state.lastDf == s.lastDf
    ensures IsEmpty(s.lastDf) ==> r == Step(s, InfoBox(NoData))
    ensures !IsEmpty(s.lastDf) ==> r.state.azq == Some(s.lastDf)
    ensures !IsEmpty(s.lastDf) && engine(s.lastDf, Strip(f.query)).Failure? ==>
              r == Step(s.(azq := Some(s.lastDf)), ErrorBox(QueryFailed))
    ensures !IsEmpty(s.lastDf) && engine(s.lastDf, Strip(f.query)).Success? ==>
              var out := engine(s.lastDf, Strip(f.query)).value;
              && (r.state.executeEnabled <==> !IsEmpty(out) && DisplayOf(out, f).Success?)
              && (r.state.executeEnabled ==> r.state.output == Some(DisplayOf(out, f).value))
              && (!r.state.executeEnabled ==> r.state.output == s.output)
              && (r.result == NoDialog <==> r.state.executeEnabled)
              && (r.result == InfoBox(QueueEmpty) <==> IsEmpty(out))
              && (r.result == ErrorBox(QueryFailed) <==> DisplayOf(out, f).Failure?)
    ensures Consistent(s) ==> Consistent(r.state)
  {
    if IsEmpty(s.lastDf) then Step(s, InfoBox(NoData))
    else
      var registered := s.(azq := Some(s.lastDf));
      match engine(s.lastDf, Strip(f.query))
      case Failure(_) => Step(registered, ErrorBox(QueryFailed))
      case Success(out) =>
        var shown := Display(registered, out, f);
        Step(shown.state, if shown.result.Failure? then ErrorBox(QueryFailed) else shown.result.value)
  }

  /** "Reload": display the kept frame again; a failing display pops up
      "Failed to reset.". */
  function Reset(s: ViewState, f: Form): (r: Step<Dialog>)
    ensures r.state.lastDf == s.lastDf && r.state.azq == s.azq
    ensures r.state.executeEnabled <==> r.result == NoDialog
    ensures r.state.executeEnabled <==> !IsEmpty(s.lastDf) && DisplayOf(s.lastDf, f).Success?
    ensures r.state.executeEnabled ==> r.state.output == Some(DisplayOf(s.lastDf, f).value)
    ensures !r.state.executeEnabled ==> r.state.output == s.output
    ensures r.result == InfoBox(QueueEmpty) <==> IsEmpty(s.lastDf)
    ensures r.result == ErrorBox(ResetFailed) <==> DisplayOf(s.lastDf, f).Failure?
    ensures Consistent(s) ==> Consistent(r.state)
  {
    var shown := Display(s, s.lastDf, f);
    Step(shown.state, if shown.result.Failure? then ErrorBox(ResetFailed) else shown.result.value)
  }

  /** A frame just loaded always displays: a load whose queue name is not
      blank either fails while receiving (the kept frame is discarded and the
      button disabled) or keeps the frame, enables the button exactly when
      the frame has rows and then shows its display copy. */
  lemma LoadOutcome(s: ViewState, f: Form, connections: map<string, Namespace>)
    requires ValidEntries(f) && AllOrdered(connections)
    requires Strip(f.queueName) != ""
    ensures var r := Load(s, f, connections);
            LoadedFrame(f, connections).Failure? ==>
              r == Step(s.(lastDf := EmptyTable, executeEnabled := false), ErrorBox(ReceiveFailed))
    ensures var r := Load(s, f, connections);
            LoadedFrame(f, connections).Success? ==>
              && r.state.lastDf == LoadedFrame(f, connections).value
              && DisplayOf(r.state.lastDf, f).Success?
              && (r.state.executeEnabled <==> !IsEmpty(r.state.lastDf))
              && (r.result == NoDialog <==> !IsEmpty(r.state.lastDf))
              && (!IsEmpty(r.state.lastDf) ==> r.state.output == Some(DisplayOf(r.state.lastDf, f).value))
              && (IsEmpty(r.state.lastDf) ==> r.result == InfoBox(QueueEmpty) && r.state.output == s.output)
  {
    if LoadedFrame(f, connections).Success? {
      StripDigits(f.minSequence);
      StripDigits(f.maxSequence);
      var w := WindowOf(Strip(f.minSequence), Strip(f.maxSequence));
      var ms := FetchOutcome(connections[f.environment], TargetQueue(Strip(f.queueName), f.queueType), w).value;
      LoadedTableDisplays(ms, DeadLetterSelected(f), f.fullMessage);
    }
  }

  /** "Reload" right after a load of the same form redraws exactly what the
      load left: the window state does not change. */
  lemma ReloadAfterLoad(s: ViewState, f: Form, connections: map<string, Namespace>)
    requires ValidEntries(f) && AllOrdered(connections)
    requires Strip(f.queueName) != ""
    ensures Reset(Load(s, f, connections).state, f).state == Load(s, f, connections).state
  {
    LoadOutcome(s, f, connections);
  }

  /** Pressing "Reload" twice is pressing it once. */
  lemma ResetIdempotent(s: ViewState, f: Form)
    ensures Reset(Reset(s, f).state, f) == Reset(s, f)
  {
  }

  /** A frame loaded from the queue itself cannot be reloaded once the
      dead-letter type is selected: the display copy misses
      `dead_letter_reason`, so "Reload" pops up "Failed to reset." and leaves
      the button disabled. */
  lemma ReloadAfterSwitchingToDeadLetter(s: ViewState, f: Form, ms: seq<RawMessage>)
    requires ms != [] && s.lastDf == FromRows(Normalized(ms, false), false)
    requires f.queueType == DeadLetter
    ensures Reset(s, f) == Step(s.(executeEnabled := false), ErrorBox(ResetFailed))
  {
    NormalFrameAsDeadLetterFails(ms, f.fullMessage);
  }

  /** A query whose result has rows but no `message_id` column (a projection
      such as `SELECT id FROM azq`) makes the display raise: "Query execution
      failed." pops up and the button is left disabled, with the output and
      the kept frame as they were. */
  lemma ProjectionQueryFails(s: ViewState, f: Form, engine: Engine)
    requires !IsEmpty(s.lastDf) && engine(s.lastDf, Strip(f.query)).Success?
    requires var out := engine(s.lastDf, Strip(f.query)).value;
             !IsEmpty(out) && MessageIdColumn !in out.columns
    ensures Query(s, f, engine) == Step(s.(azq := Some(s.lastDf), executeEnabled := false), ErrorBox(QueryFailed))
  {
    var out := engine(s.lastDf, Strip(f.query)).value;
    assert FirstMissing(out, DisplayedColumns(DeadLetterSelected(f))) == Some(MessageIdColumn);
  }

  /** The body of the `try` block of `load_messages` up to building the
      frame: look the environment up, receive through the window and
      normalise the messages. */
  method ReceiveFrame(f: Form, connections: map<string, Namespace>) returns (frame: Result<Table, LoadError>)
    requires ValidEntries(f) && AllOrdered(connections)
    ensures frame == LoadedFrame(f, connections)
  {
    var target := TargetQueue(Strip(f.queueName), f.queueType);
    StripDigits(f.minSequence);
    StripDigits(f.maxSequence);
    var w := WindowOf(Strip(f.minSequence), Strip(f.maxSequence));
    if f.environment !in connections {
      return Failure(UnknownEnvironment);
    }
    var fetched := FetchMessages(connections[f.environment], target, w);
    if fetched.Failure? {
      return Failure(Receive(fetched.error));
    }
    var rows := Normalize(fetched.value, DeadLetterSelected(f));
    frame := Success(FromRows(rows, DeadLetterSelected(f)));
  }

  /** The application window. */
  class QueueViewerApp {
    /** `self.last_df`. */
    var lastDf: Table
    /** Whether `self.execute_button` is in state `normal`. */
    var executeEnabled: bool
    /** The table `self.output_area` shows, if any. */
    var output: Option<Table>
    /** The frame registered with the SQL engine under the name `azq`. */
    var azq: Option<Table>

    function State(): ViewState
      reads this
    {
      ViewState(lastDf, executeEnabled, output, azq)
    }

    predicate Valid()
      reads this
    {
      Consistent(State())
    }

    /** A new window: no frame kept, the button disabled, nothing shown. */
    constructor ()
      ensures Valid()
      ensures State() == ViewState(EmptyTable, false, None, None)
    {
      lastDf := EmptyTable;
      executeEnabled := false;
      output := None;
      azq := None;
    }

    /** `display_table`. */
    method DisplayTable(df: Table, f: Form) returns (r: Result<Dialog, string>)
      modifies this
      ensures Step(State(), r) == Display(old(State()), df, f)
    {
      executeEnabled := false;
      var copy := DisplayOf(df, f);
      if !IsEmpty(df) {
        if copy.Failure? {
          return Failure(copy.error);
        }
        output := Some(copy.value);
        executeEnabled := true;
        r := Success(NoDialog);
      } else {
        executeEnabled := false;
        r := Success(InfoBox(QueueEmpty));
      }
    }

    /** The `except` branch of `load_messages`. */
    method DiscardFrame() returns (dialog: Dialog)
      modifies this
      ensures Step(State(), dialog) == LoadFailed(old(State()))
    {
      lastDf := EmptyTable;
      executeEnabled := false;
      dialog := ErrorBox(ReceiveFailed);
    }

    /** `load_messages`. */
    method LoadMessages(f: Form, connections: map<string, Namespace>) returns (dialog: Dialog)
      requires Valid() && ValidEntries(f) && AllOrdered(connections)
      modifies this
      ensures Valid()
      ensures Step(State(), dialog) == Load(old(State()), f, connections)
    {
      var queueName := Strip(f.queueName);
      if queueName == "" {
        return ErrorBox(QueueNameMissing);
      }
      var frame := ReceiveFrame(f, connections);
      if frame.Failure? {
        dialog := DiscardFrame();
        return;
      }
      lastDf := frame.value;
      var shown := DisplayTable(lastDf, f);
      // A frame built from normalised rows has every column the display
      // reads, so the display raises nothing here.
      dialog := shown.value;
    }

    /** `execute_query`, with the SQL engine as a parameter. */
    method ExecuteQuery(f: Form, engine: Engine) returns (dialog: Dialog)
      requires Valid()
      modifies this
      ensures Valid()
      ensures Step(State(), dialog) == Query(old(State()), f, engine)
    {
      var sqlQuery := Strip(f.query);
      if IsEmpty(lastDf) {
        return InfoBox(NoData);
      }
      azq := Some(lastDf);
      var outcome := engine(lastDf, sqlQuery);
      if outcome.Failure? {
        return ErrorBox(QueryFailed);
      }
      var shown := DisplayTable(outcome.value, f);
      if shown.Failure? {
        return ErrorBox(QueryFailed);
      }
      dialog := shown.value;
    }

    /** `reset`, the "Reload" button. */
    method ResetView(f: Form) returns (dialog: Dialog)
      requires Valid()
      modifies this
      ensures Valid()
      ensures Step(State(), dialog) == Reset(old(State()), f)
    {
      var shown := DisplayTable(lastDf, f);
      if shown.Failure? {
        return ErrorBox(ResetFailed);
      }
      dialog := shown.value;
    }
  }
}
