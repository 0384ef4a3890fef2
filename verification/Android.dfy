/** EntryActivity.java: the editor of the Android client. The UI thread, the single thread of the executor and the
    callbacks posted back to the UI thread interleave around the fields; a save is a task in the executor's queue. */
module Android {
  import opened Options

  datatype Task = Connect | Save(text: string, closing: bool) | Disconnect

  /** What the executor's thread is doing. A save reads the entry's id when it starts; a target of at most 0 is a
      POST, any other an UPDATE. */
  datatype Running = Free | Connecting | Calling(text: string, closing: bool, target: int) | Disconnecting

  /** What the executor has posted to the UI thread. */
  datatype Callback = StatusOnly | Settled(closing: bool, ok: bool)

  datatype Activity = Activity(
    conn: bool, edit: string, original: string, entryId: int, saving: bool, timer: bool, result: bool,
    finished: bool, destroyed: bool, queue: seq<Task>, running: Running, callbacks: seq<Callback>)

  // ---------------------------------------------------------------------------------------------
  // The UI thread
  // ---------------------------------------------------------------------------------------------

  /** onCreate; without stored keys the activity finishes at once. */
  function Created(entryId: int, initial: Option<string>, keys: bool): Activity {
    var text := if initial.Some? then initial.value else "";
    Activity(false, text, text, entryId, false, false, false, !keys, false, if keys then [Connect] else [], Free, [])
  }

  function Typed(s: Activity, text: string): (r: Activity)
    ensures r.original == s.original
  {
    s.(edit := text, timer := true)
  }

  function Saved(s: Activity): (r: Activity)
    ensures r.original == s.original
  {
    if !s.conn || s.saving || s.edit == "" then s
    else s.(saving := true, queue := s.queue + [Save(s.edit, false)])
  }

  function SavedAndClosed(s: Activity): (r: Activity)
    ensures r.original == s.original
  {
    var s := s.(timer := false);
    if !s.conn || s.edit == "" || s.edit == s.original then s.(finished := true)
    else s.(saving := true, queue := s.queue + [Save(s.edit, true)])
  }

  function Destroyed(s: Activity): (r: Activity)
    ensures r.original == s.original
  {
    s.(timer := false, destroyed := true, queue := s.queue + [Disconnect])
  }

  function Dispatched(s: Activity): (r: Activity)
    ensures r.original == s.original
  {
    if s.callbacks == [] then s else
      var s' := s.(callbacks := s.callbacks[1..]);
      var callback := s.callbacks[0];
      if callback.StatusOnly? then s'
      else if callback.closing then s'.(result := s.result || callback.ok, finished := true)
      else s'.(result := s.result || callback.ok, saving := false)
  }

  // ---------------------------------------------------------------------------------------------
  // The executor's thread
  // ---------------------------------------------------------------------------------------------

  function Begun(s: Activity): (r: Activity)
    ensures r.original == s.original
  {
    if !s.running.Free? || s.queue == [] then s else
      var task := s.queue[0];
      s.(queue := s.queue[1..],
         running := if task.Save? then Calling(task.text, task.closing, s.entryId)
                    else if task.Connect? then Connecting else Disconnecting)
  }

  /** conn is assigned before the connection is made. */
  function Assigned(s: Activity): (r: Activity)
    ensures r.original == s.original
  {
    if s.running.Connecting? then s.(conn := true) else s
  }

  /** reply is the id that the call returned, or None when it threw. */
  function Ended(s: Activity, reply: Option<int>): (r: Activity)
    ensures r.original == s.original
  {
    if s.running.Calling? then
      s.(running := Free, callbacks := s.callbacks + [Settled(s.running.closing, reply.Some?)],
         entryId := if reply.Some? && s.running.target <= 0 then reply.value else s.entryId)
    else
      s.(running := Free, callbacks := if s.running.Connecting? then s.callbacks + [StatusOnly] else s.callbacks)
  }

  // ---------------------------------------------------------------------------------------------
  // Runs
  // ---------------------------------------------------------------------------------------------

  /** A finished call: what it sent, the row the server wrote for it, and whether the reply arrived. */
  datatype Call = Call(text: string, target: int, row: Option<int>, acked: bool)

  /** The user's rows on the server, the next id, whether the connection is dead, the row written for the call that is
      running, and all finished calls. */
  datatype World = World(rows: map<int, string>, nextId: int, dead: bool, reached: Option<int>, done: seq<Call>)

  datatype System = System(a: Activity, w: World)

  /** Every event is taken by one thread; a save is taken by three, its start, its effect on the server and its
      return, and anything can come in between. */
  datatype Event =
    | Type(text: string)
    | Timer
    | Back
    | Destroy
    | Dispatch
    | Start
    | Assign
    | Reach(id: int)                 // the server executes the running call; id is a fresh id for a POST
    | End(heard: bool)               // the running task ends; when nothing was heard the connection is dead
    | DeletedElsewhere(id: int)      // another session deletes a row

  /** The server executes the running call, unless it has done so; nothing reaches it over a dead connection. */
  function Serve(running: Running, w: World, id: int): World {
    if !running.Calling? || w.dead || w.reached.Some? then w
    else if running.target > 0 then
      if running.target !in w.rows then w
      else w.(rows := w.rows[running.target := running.text], reached := Some(running.target))
    else if id < w.nextId then w
    else w.(rows := w.rows[id := running.text], nextId := id + 1, reached := Some(id))
  }

  /** A reply is missed only by the end of the stream or an error of the socket, and nothing connects again. */
  function Hear(running: Running, w: World, heard: bool): World {
    var after := w.(dead := w.dead || !heard);
    if running.Calling? then
      after.(reached := None,
             done := w.done + [Call(running.text, running.target, w.reached, heard && w.reached.Some?)])
    else if running.Connecting? then after
    else w
  }

  function Reply(running: Running, w: World, heard: bool): Option<int> {
    if running.Calling? && heard then w.reached else None
  }

  function Reached(sys: System, id: int): System {
    sys.(w := Serve(sys.a.running, sys.w, id))
  }

  function Returned(sys: System, heard: bool): System {
    System(Ended(sys.a, Reply(sys.a.running, sys.w, heard)), Hear(sys.a.running, sys.w, heard))
  }

  function Step(sys: System, e: Event): System {
    var a := sys.a;
    match e
    case Type(text) => if a.destroyed then sys else sys.(a := Typed(a, text))
    case Timer => if a.timer then sys.(a := Saved(a.(timer := false))) else sys
    case Back => if a.destroyed then sys else sys.(a := SavedAndClosed(a))
    case Destroy => if a.destroyed then sys else sys.(a := Destroyed(a))
    case Dispatch => sys.(a := Dispatched(a))
    case Start => sys.(a := Begun(a))
    case Assign => sys.(a := Assigned(a))
    case Reach(id) => Reached(sys, id)
    case End(heard) => Returned(sys, heard)
    case DeletedElsewhere(id) => sys.(w := sys.w.(rows := sys.w.rows - {id}))
  }

  function Play(sys: System, events: seq<Event>): System
    decreases |events|
  {
    if events == [] then sys else Play(Step(sys, events[0]), events[1..])
  }

  function Opened(entryId: int, initial: Option<string>, keys: bool, rows: map<int, string>, nextId: int): System {
    System(Created(entryId, initial, keys), World(rows, nextId, false, None, []))
  }

  // ---------------------------------------------------------------------------------------------
  // The class
  // ---------------------------------------------------------------------------------------------

  class EntryActivity {
    var conn: bool
    var editText: string
    var originalText: string
    var entryId: int
    var saving: bool
    var timerPosted: bool
    var resultOk: bool
    var finished: bool
    var destroyed: bool
    var queue: seq<Task>
    var running: Running
    var callbacks: seq<Callback>

    ghost function State(): Activity
      reads this
    {
      Activity(conn, editText, originalText, entryId, saving, timerPosted, resultOk, finished, destroyed,
                  queue, running, callbacks)
    }

    constructor (extraId: int, initialText: Option<string>, keys: bool)
      ensures State() == Created(extraId, initialText, keys)
      ensures editText == originalText == if initialText.Some? then initialText.value else ""
      ensures entryId == extraId && !conn && !saving && !timerPosted && !resultOk && !destroyed
      ensures finished == !keys && queue == (if keys then [Connect] else []) && running.Free? && callbacks == []
    {
      conn, saving, timerPosted, resultOk, finished, destroyed := false, false, false, false, false, false;
      entryId, running, callbacks, queue := extraId, Free, [], [];
      originalText := if initialText.Some? then initialText.value else "";
      editText := "";
      new;
      if initialText.Some? { editText := initialText.value; }
      SetupConnection(keys);
    }

    method SetupConnection(keys: bool)
      modifies this`finished, this`queue
      ensures if keys then finished == old(finished) && queue == old(queue) + [Connect]
              else finished && queue == old(queue)
    {
      if !keys { finished := true; return; }
      queue := queue + [Connect];
    }

    method AfterTextChanged(text: string)
      modifies this`editText, this`timerPosted
      ensures State() == Typed(old(State()), text)
    {
      editText := text;
      timerPosted := false;
      timerPosted := true;
    }

    method Save()
      modifies this`saving, this`queue
      ensures State() == Saved(old(State()))
      ensures queue == old(queue) + if old(conn && !saving && editText != "") then [Task.Save(editText, false)] else []
    {
      if !conn || saving { return; }
      var text := editText;
      if text == "" { return; }
      saving := true;
      queue := queue + [Task.Save(text, false)];
    }

    method SaveAndClose()
      modifies this`timerPosted, this`finished, this`saving, this`queue
      ensures State() == SavedAndClosed(old(State()))
      ensures finished || queue == old(queue) + [Task.Save(editText, true)]
      ensures finished <==> old(finished) || !conn || editText == "" || editText == originalText
    {
      timerPosted := false;
      if !conn { finished := true; return; }
      var text := editText;
      if text == "" || text == originalText { finished := true; return; }
      saving := true;
      queue := queue + [Task.Save(text, true)];
    }

    method OnDestroy()
      modifies this`timerPosted, this`destroyed, this`queue
      ensures State() == Destroyed(old(State()))
    {
      timerPosted := false;
      queue := queue + [Disconnect];
      destroyed := true;
    }

    method Dispatch()
      modifies this`callbacks, this`finished, this`saving, this`resultOk
      ensures State() == Dispatched(old(State()))
    {
      if callbacks == [] { return; }
      var callback := callbacks[0];
      callbacks := callbacks[1..];
      if callback.Settled? {
        if callback.ok { resultOk := true; }
        if callback.closing { finished := true; } else { saving := false; }
      }
    }

    method BeginTask()
      modifies this`queue, this`running
      ensures State() == Begun(old(State()))
    {
      if !running.Free? || queue == [] { return; }
      var task := queue[0];
      queue := queue[1..];
      match task
      case Connect => running := Connecting;
      case Save(text, closing) => running := Calling(text, closing, entryId);
      case Disconnect => running := Disconnecting;
    }

    method AssignConnection()
      modifies this`conn
      ensures State() == Assigned(old(State()))
    {
      if running.Connecting? { conn := true; }
    }

    method EndTask(reply: Option<int>)
      modifies this`running, this`callbacks, this`entryId
      ensures State() == Ended(old(State()), reply)
    {
      var task := running;
      running := Free;
      match task
      case Free =>
      case Connecting =>
        callbacks := callbacks + [StatusOnly];
      case Calling(_, closing, target) =>
        if reply.Some? && target <= 0 { entryId := reply.value; }
        callbacks := callbacks + [Settled(closing, reply.Some?)];
      case Disconnecting =>
    }

    /** One event, as the thread that it belongs to takes it. */
    method Handle(e: Event, w: World) returns (after: World)
      modifies this
      ensures System(State(), after) == Step(System(old(State()), w), e)
    {
      after := w;
      match e
      case Type(text) => if !destroyed { AfterTextChanged(text); }
      case Timer => if timerPosted { timerPosted := false; Save(); }
      case Back => if !destroyed { SaveAndClose(); }
      case Destroy => if !destroyed { OnDestroy(); }
      case Dispatch => Dispatch();
      case Start => BeginTask();
      case Assign => AssignConnection();
      case Reach(id) => after := Serve(running, w, id);
      case End(heard) =>
        after := Hear(running, w, heard);
        EndTask(Reply(running, w, heard));
      case DeletedElsewhere(id) => after := w.(rows := w.rows - {id});
    }
  }

  /** A whole life of the activity is a run, so what is proved below of all runs holds of the class. */
  method Live(
    extraId: int, initialText: Option<string>, keys: bool, rows: map<int, string>, nextId: int, events: seq<Event>)
    returns (a: EntryActivity, w: World)
    ensures System(a.State(), w) == Play(Opened(extraId, initialText, keys, rows, nextId), events)
  {
    a := new EntryActivity(extraId, initialText, keys);
    w := World(rows, nextId, false, None, []);
    assert events[0..] == events;
    for i := 0 to |events|
      invariant fresh(a)
      invariant Play(System(a.State(), w), events[i..])
                == Play(Opened(extraId, initialText, keys, rows, nextId), events)
    {
      assert events[i..][0] == events[i] && events[i..][1..] == events[i + 1..];
      w := a.Handle(events[i], w);
    }
  }

  // ---------------------------------------------------------------------------------------------
  // At most one POST is acknowledged
  // ---------------------------------------------------------------------------------------------

  /** The id that the activity edits after the first n calls. */
  function CurrentId(id0: int, done: seq<Call>, n: nat): int
    requires n <= |done|
  {
    if n == 0 then id0 else
      var id, last := CurrentId(id0, done, n - 1), done[n - 1];
      if id <= 0 && last.acked && last.row.Some? then last.row.value else id
  }

  /** A reply is only heard when the server wrote a row, an UPDATE writes its own, and a POST one with a positive id. */
  predicate RowOk(c: Call) {
    && (c.acked ==> c.row.Some?)
    && (c.row.Some? ==> c.row.value > 0 && (c.target > 0 ==> c.row.value == c.target))
  }

  /** Every call had the id that was current when it started. */
  ghost predicate TargetsOk(id0: int, done: seq<Call>) {
    forall i | 0 <= i < |done| :: RowOk(done[i]) && done[i].target == CurrentId(id0, done, i)
  }

  ghost predicate IdInv(sys: System, id0: int) {
    var a, w := sys.a, sys.w;
    && w.nextId >= 1 && (forall id | id in w.rows :: id < w.nextId)
    && a.entryId == CurrentId(id0, w.done, |w.done|)
    && TargetsOk(id0, w.done)
    && match a.running
       case Calling(_, _, target) =>
         target == a.entryId && (w.reached.Some? ==> w.reached.value > 0 && (target > 0 ==> w.reached.value == target))
       case _ => w.reached.None?
  }

  lemma {:induction false} SamePrefix(id0: int, done: seq<Call>, more: seq<Call>, n: nat)
    requires n <= |done| && done <= more
    ensures CurrentId(id0, more, n) == CurrentId(id0, done, n)
  {
    if n > 0 {
      SamePrefix(id0, done, more, n - 1);
    }
  }

  lemma {:induction false} TargetsGrow(id0: int, done: seq<Call>, more: seq<Call>, c: Call)
    requires TargetsOk(id0, done) && more == done + [c] && RowOk(c) && c.target == CurrentId(id0, done, |done|)
    ensures TargetsOk(id0, more)
  {
    forall i | 0 <= i < |more| ensures RowOk(more[i]) && more[i].target == CurrentId(id0, more, i) {
      SamePrefix(id0, done, more, i);
      assert i < |done| ==> more[i] == done[i];
    }
  }

  lemma {:induction false} IdAfterCall(id0: int, done: seq<Call>, more: seq<Call>, c: Call)
    requires more == done + [c] && RowOk(c) && c.target == CurrentId(id0, done, |done|)
    ensures CurrentId(id0, more, |more|) == if c.target <= 0 && c.acked then c.row.value else c.target
  {
    SamePrefix(id0, done, more, |done|);
  }

  lemma {:induction false} StepKeepsId(sys: System, e: Event, id0: int)
    requires IdInv(sys, id0)
    ensures IdInv(Step(sys, e), id0)
  {
    if e.End? && sys.a.running.Calling? {
      var more := Returned(sys, e.heard).w.done;
      TargetsGrow(id0, sys.w.done, more, more[|sys.w.done|]);
      IdAfterCall(id0, sys.w.done, more, more[|sys.w.done|]);
    }
  }

  /** Once a POST has been acknowledged, its id stays. */
  lemma {:induction false} IdStays(id0: int, done: seq<Call>, i: nat, j: nat)
    requires i <= j <= |done| && CurrentId(id0, done, i) > 0
    ensures CurrentId(id0, done, j) == CurrentId(id0, done, i)
  {
    if i < j {
      IdStays(id0, done, i, j - 1);
    }
  }

  lemma {:induction false} IdAfterAck(id0: int, done: seq<Call>, i: nat)
    requires i < |done| && RowOk(done[i]) && done[i].target == CurrentId(id0, done, i) && done[i].acked
    ensures CurrentId(id0, done, i + 1) == done[i].row.value > 0
  {
  }

  lemma {:induction false} TargetAfterAck(id0: int, done: seq<Call>, i: nat, j: nat)
    requires i < j < |done| && RowOk(done[i]) && done[i].acked
    requires done[i].target == CurrentId(id0, done, i) && done[j].target == CurrentId(id0, done, j)
    ensures done[j].target == done[i].row.value > 0
  {
    IdAfterAck(id0, done, i);
    IdStays(id0, done, i + 1, j);
  }

  lemma {:induction false} TargetOfExisting(id0: int, done: seq<Call>, i: nat)
    requires TargetsOk(id0, done) && i < |done| && id0 > 0
    ensures done[i].target == id0
  {
    IdStays(id0, done, 0, i);
  }

  /** In every run, whatever the interleaving, every call after an acknowledged one is an UPDATE of the row which that
      one wrote. So at most one POST is acknowledged, and none at all when an existing entry was opened. */
  lemma {:induction false} AtMostOnePost(sys: System, id0: int, i: nat, j: nat)
    requires IdInv(sys, id0) && i < j < |sys.w.done|
    ensures sys.w.done[i].acked ==> sys.w.done[j].target == sys.w.done[i].row.value > 0
    ensures id0 > 0 ==> sys.w.done[i].target == id0 == sys.w.done[j].target
  {
    if sys.w.done[i].acked {
      TargetAfterAck(id0, sys.w.done, i, j);
    }
    if id0 > 0 {
      TargetOfExisting(id0, sys.w.done, i);
      TargetOfExisting(id0, sys.w.done, j);
    }
  }

  // ---------------------------------------------------------------------------------------------
  // At most one row is stored
  // ---------------------------------------------------------------------------------------------

  /** There is at most one row that was not there before, and none as long as the next call would be a POST that can
      still reach the server. */
  ghost predicate OneRow(sys: System, id0: int, rows0: map<int, string>) {
    && (forall i, j | i in sys.w.rows && i !in rows0 && j in sys.w.rows && j !in rows0 :: i == j)
    && (sys.a.entryId <= 0 && sys.w.reached.None? && !sys.w.dead ==> sys.w.rows.Keys <= rows0.Keys)
    && (id0 > 0 ==> sys.w.rows.Keys <= rows0.Keys)
  }

  lemma {:induction false} ReachKeepsOneRow(sys: System, id: int, id0: int, rows0: map<int, string>)
    requires IdInv(sys, id0) && OneRow(sys, id0, rows0)
    ensures OneRow(Reached(sys, id), id0, rows0)
  {
    if id0 > 0 {
      IdStays(id0, sys.w.done, 0, |sys.w.done|);
    }
  }

  lemma {:induction false} ReturnKeepsOneRow(sys: System, heard: bool, id0: int, rows0: map<int, string>)
    requires IdInv(sys, id0) && OneRow(sys, id0, rows0)
    ensures OneRow(Returned(sys, heard), id0, rows0)
  {
  }

  lemma {:induction false} StepKeepsOneRow(sys: System, e: Event, id0: int, rows0: map<int, string>)
    requires IdInv(sys, id0) && OneRow(sys, id0, rows0)
    ensures OneRow(Step(sys, e), id0, rows0)
  {
    if e.Reach? {
      ReachKeepsOneRow(sys, e.id, id0, rows0);
    } else if e.End? {
      ReturnKeepsOneRow(sys, e.heard, id0, rows0);
    }
  }

  // ---------------------------------------------------------------------------------------------
  // No captured text is lost or reordered
  // ---------------------------------------------------------------------------------------------

  function Texts(tasks: seq<Task>): seq<string> {
    if tasks == [] then [] else (if tasks[0].Save? then [tasks[0].text] else []) + Texts(tasks[1..])
  }

  function DoneTexts(done: seq<Call>): seq<string> {
    if done == [] then [] else DoneTexts(done[..|done| - 1]) + [done[|done| - 1].text]
  }

  function RunningText(running: Running): seq<string> {
    if running.Calling? then [running.text] else []
  }

  /** All texts taken from the edit field so far: those already sent, the one being sent, and those queued. */
  function Captured(sys: System): seq<string> {
    DoneTexts(sys.w.done) + RunningText(sys.a.running) + Texts(sys.a.queue)
  }

  /** The event takes the text from the edit field. */
  predicate Takes(a: Activity, e: Event) {
    match e
    case Timer => a.timer && a.conn && !a.saving && a.edit != ""
    case Back => !a.destroyed && a.conn && a.edit != "" && a.edit != a.original
    case _ => false
  }

  lemma {:induction false} TextsAppend(tasks: seq<Task>, task: Task)
    ensures Texts(tasks + [task]) == Texts(tasks) + if task.Save? then [task.text] else []
  {
    if tasks != [] {
      assert (tasks + [task])[1..] == tasks[1..] + [task];
      TextsAppend(tasks[1..], task);
    } else {
      assert tasks + [task] == [task] && [task][1..] == [];
    }
  }

  lemma {:induction false} BeginKeepsTexts(a: Activity)
    ensures RunningText(Begun(a).running) + Texts(Begun(a).queue) == RunningText(a.running) + Texts(a.queue)
  {
  }

  lemma {:induction false} ReturnKeepsTexts(sys: System, heard: bool)
    ensures Captured(Returned(sys, heard)) == Captured(sys)
  {
    var done, more := sys.w.done, Returned(sys, heard).w.done;
    if more != done {
      assert more[..|more| - 1] == done;
      assert DoneTexts(more) == DoneTexts(done) + RunningText(sys.a.running);
    }
  }

  lemma {:induction false} UiKeepsTexts(a: Activity)
    ensures Texts(Saved(a).queue) == Texts(a.queue) + if a.conn && !a.saving && a.edit != "" then [a.edit] else []
    ensures Texts(SavedAndClosed(a).queue)
            == Texts(a.queue) + if a.conn && a.edit != "" && a.edit != a.original then [a.edit] else []
    ensures Texts(Destroyed(a).queue) == Texts(a.queue)
  {
    TextsAppend(a.queue, Save(a.edit, false));
    TextsAppend(a.queue, Save(a.edit, true));
    TextsAppend(a.queue, Disconnect);
  }

  lemma {:induction false} QueueGrows(sys: System, a: Activity, text: seq<string>)
    requires a.running == sys.a.running && Texts(a.queue) == Texts(sys.a.queue) + text
    ensures Captured(sys.(a := a)) == Captured(sys) + text
  {
  }

  lemma {:induction false} UiCaptures(sys: System, e: Event)
    requires e.Timer? || e.Back? || e.Destroy?
    ensures Captured(Step(sys, e)) == Captured(sys) + if Takes(sys.a, e) then [sys.a.edit] else []
  {
    UiKeepsTexts(sys.a.(timer := false));
    UiKeepsTexts(sys.a);
    QueueGrows(sys, Step(sys, e).a, if Takes(sys.a, e) then [sys.a.edit] else []);
  }

  lemma {:induction false} BeginCaptures(sys: System)
    ensures Captured(sys.(a := Begun(sys.a))) == Captured(sys)
  {
    BeginKeepsTexts(sys.a);
    var a' := Begun(sys.a);
    Regroup(DoneTexts(sys.w.done), RunningText(sys.a.running), Texts(sys.a.queue),
            RunningText(a'.running), Texts(a'.queue));
  }

  lemma {:induction false} Regroup(d: seq<string>, r: seq<string>, t: seq<string>, r': seq<string>, t': seq<string>)
    requires r' + t' == r + t
    ensures d + r' + t' == d + r + t
  {
    assert d + r' + t' == d + (r' + t') && d + r + t == d + (r + t);
  }

  /** Exactly the events that take the text add to what was captured; everything else keeps it, in its order. */
  lemma {:induction false} StepCaptures(sys: System, e: Event)
    ensures Captured(Step(sys, e)) == Captured(sys) + if Takes(sys.a, e) then [sys.a.edit] else []
  {
    if e.Timer? || e.Back? || e.Destroy? {
      UiCaptures(sys, e);
    } else if e.Start? {
      BeginCaptures(sys);
    } else if e.End? {
      ReturnKeepsTexts(sys, e.heard);
    }
  }

  // ---------------------------------------------------------------------------------------------
  // One autosave at a time, and none after the connection is closed
  // ---------------------------------------------------------------------------------------------

  function AutosavesQueued(tasks: seq<Task>): nat {
    if tasks == [] then 0 else (if tasks[0].Save? && !tasks[0].closing then 1 else 0) + AutosavesQueued(tasks[1..])
  }

  function AutosavesPosted(callbacks: seq<Callback>): nat {
    if callbacks == [] then 0
    else (if callbacks[0].Settled? && !callbacks[0].closing then 1 else 0) + AutosavesPosted(callbacks[1..])
  }

  /** Autosaves that are queued, running, or waiting for their callback. */
  function Autosaves(a: Activity): nat {
    AutosavesQueued(a.queue) + AutosavesPosted(a.callbacks)
    + if a.running.Calling? && !a.running.closing then 1 else 0
  }

  /** Closing the connection is the last thing in the queue, and only when the activity is destroyed. */
  ghost predicate ClosesLast(queue: seq<Task>, running: Running, destroyed: bool) {
    && (forall i | 0 <= i < |queue| && queue[i].Disconnect? :: destroyed && i == |queue| - 1)
    && (running.Disconnecting? ==> destroyed && queue == [])
  }

  ghost predicate Orderly(a: Activity) {
    && Autosaves(a) <= (if a.saving then 1 else 0)
    && (a.destroyed ==> !a.timer)
    && ClosesLast(a.queue, a.running, a.destroyed)
  }

  lemma {:induction false} QueuedAppend(tasks: seq<Task>, task: Task)
    ensures AutosavesQueued(tasks + [task]) == AutosavesQueued(tasks) + AutosavesQueued([task])
  {
    if tasks != [] {
      assert (tasks + [task])[1..] == tasks[1..] + [task];
      QueuedAppend(tasks[1..], task);
    } else {
      assert tasks + [task] == [task];
    }
  }

  lemma {:induction false} PostedAppend(callbacks: seq<Callback>, callback: Callback)
    ensures AutosavesPosted(callbacks + [callback]) == AutosavesPosted(callbacks) + AutosavesPosted([callback])
  {
    if callbacks != [] {
      assert (callbacks + [callback])[1..] == callbacks[1..] + [callback];
      PostedAppend(callbacks[1..], callback);
    } else {
      assert callbacks + [callback] == [callback];
    }
  }

  lemma {:induction false} SaveKeepsOrder(a: Activity)
    requires Orderly(a) && !a.destroyed
    ensures Orderly(Saved(a))
  {
    QueuedAppend(a.queue, Save(a.edit, false));
  }

  lemma {:induction false} CloseKeepsOrder(a: Activity)
    requires Orderly(a) && !a.destroyed
    ensures Orderly(SavedAndClosed(a))
  {
    QueuedAppend(a.queue, Save(a.edit, true));
  }

  lemma {:induction false} DestroyKeepsOrder(a: Activity)
    requires Orderly(a) && !a.destroyed
    ensures Orderly(Destroyed(a))
  {
    QueuedAppend(a.queue, Disconnect);
  }

  lemma {:induction false} BeginKeepsOrder(a: Activity)
    requires Orderly(a)
    ensures Orderly(Begun(a))
  {
    if a.queue != [] && a.queue[0].Disconnect? {
      assert |a.queue| == 1;
    }
  }

  lemma {:induction false} OnePosted(callback: Callback)
    ensures AutosavesPosted([callback]) == if callback.Settled? && !callback.closing then 1 else 0
  {
    assert [callback][1..] == [];
  }

  /** The end of a call turns it into its callback. */
  lemma {:induction false} EndKeepsAutosaves(a: Activity, reply: Option<int>)
    ensures Autosaves(Ended(a, reply)) == Autosaves(a)
  {
    if a.running.Calling? {
      PostedAppend(a.callbacks, Settled(a.running.closing, reply.Some?));
      OnePosted(Settled(a.running.closing, reply.Some?));
    } else if a.running.Connecting? {
      PostedAppend(a.callbacks, StatusOnly);
      OnePosted(StatusOnly);
    }
  }

  lemma {:induction false} EndKeepsOrder(a: Activity, reply: Option<int>)
    requires Orderly(a)
    ensures Orderly(Ended(a, reply))
  {
    EndKeepsAutosaves(a, reply);
    var a' := Ended(a, reply);
    assert a'.queue == a.queue && a'.saving == a.saving && a'.destroyed == a.destroyed && a'.timer == a.timer;
  }

  lemma {:induction false} DispatchKeepsOrder(a: Activity)
    requires Orderly(a)
    ensures Orderly(Dispatched(a))
  {
  }

  lemma {:induction false} UiStepKeepsOrder(sys: System, e: Event)
    requires Orderly(sys.a) && (e.Timer? || e.Back? || e.Destroy?)
    ensures Orderly(Step(sys, e).a)
  {
    if e.Timer? {
      if sys.a.timer { SaveKeepsOrder(sys.a.(timer := false)); }
    } else if !sys.a.destroyed {
      CloseKeepsOrder(sys.a);
      DestroyKeepsOrder(sys.a);
    }
  }

  /** In every run at most one autosave is under way at a time, saving says so, and no save comes after the
      disconnection, so every text that was captured is sent before. */
  lemma {:induction false} StepKeepsOrder(sys: System, e: Event)
    requires Orderly(sys.a)
    ensures Orderly(Step(sys, e).a)
  {
    if e.Timer? || e.Back? || e.Destroy? {
      UiStepKeepsOrder(sys, e);
    } else if e.Start? {
      BeginKeepsOrder(sys.a);
    } else if e.Dispatch? {
      DispatchKeepsOrder(sys.a);
    } else if e.End? {
      EndKeepsOrder(sys.a, if e.heard && sys.a.running.Calling? then sys.w.reached else None);
    }
  }

  // ---------------------------------------------------------------------------------------------
  // Leaving, saving again, and the result
  // ---------------------------------------------------------------------------------------------

  predicate IsClosingSave(task: Task) { task.Save? && task.closing }

  predicate IsClosingEnd(callback: Callback) { callback.Settled? && callback.closing }

  /** The activity is finished, or a closing save is queued, running, or waiting for its callback. */
  predicate Leaving(a: Activity) {
    || a.finished
    || (a.running.Calling? && a.running.closing)
    || (exists i | 0 <= i < |a.queue| :: IsClosingSave(a.queue[i]))
    || (exists i | 0 <= i < |a.callbacks| :: IsClosingEnd(a.callbacks[i]))
  }

  lemma {:induction false} UiKeepsLeaving(a: Activity)
    requires Leaving(a)
    ensures Leaving(Saved(a)) && Leaving(SavedAndClosed(a)) && Leaving(Destroyed(a))
  {
    if i :| 0 <= i < |a.queue| && IsClosingSave(a.queue[i]) {
      assert Saved(a).queue[i] == a.queue[i] && SavedAndClosed(a).queue[i] == a.queue[i];
      assert Destroyed(a).queue[i] == a.queue[i];
    }
  }

  lemma {:induction false} DispatchKeepsLeaving(a: Activity)
    requires Leaving(a)
    ensures Leaving(Dispatched(a))
  {
    if i :| 0 <= i < |a.callbacks| && IsClosingEnd(a.callbacks[i]) {
      if i > 0 {
        assert Dispatched(a).callbacks == a.callbacks[1..] && a.callbacks[1..][i - 1] == a.callbacks[i];
      }
    }
  }

  lemma {:induction false} BeginKeepsLeaving(a: Activity)
    requires Leaving(a)
    ensures Leaving(Begun(a))
  {
    if i :| 0 <= i < |a.queue| && IsClosingSave(a.queue[i]) {
      assert i > 0 && a.running.Free? ==> Begun(a).queue[i - 1] == a.queue[i];
    }
  }

  lemma {:induction false} EndKeepsLeaving(a: Activity, reply: Option<int>)
    requires Leaving(a)
    ensures Leaving(Ended(a, reply))
  {
    var a' := Ended(a, reply);
    if a.running.Calling? && a.running.closing {
      assert IsClosingEnd(a'.callbacks[|a.callbacks|]);
    }
    if i :| 0 <= i < |a.callbacks| && IsClosingEnd(a.callbacks[i]) {
      assert a'.callbacks[i] == a.callbacks[i];
    }
  }

  lemma {:induction false} StepKeepsLeaving(sys: System, e: Event)
    requires Leaving(sys.a)
    ensures Leaving(Step(sys, e).a)
  {
    if e.Timer? || e.Back? || e.Destroy? {
      UiKeepsLeaving(sys.a);
      UiKeepsLeaving(sys.a.(timer := false));
    } else if e.Dispatch? {
      DispatchKeepsLeaving(sys.a);
    } else if e.Start? {
      BeginKeepsLeaving(sys.a);
    } else if e.End? {
      EndKeepsLeaving(sys.a, Reply(sys.a.running, sys.w, e.heard));
    }
  }

  lemma {:induction false} RunKeepsLeaving(sys: System, events: seq<Event>)
    requires Leaving(sys.a)
    ensures Leaving(Play(sys, events).a)
    decreases |events|
  {
    if events != [] {
      StepKeepsLeaving(sys, events[0]);
      RunKeepsLeaving(Step(sys, events[0]), events[1..]);
    }
  }

  lemma {:induction false} BackLeaves(sys: System)
    requires !sys.a.destroyed
    ensures Leaving(Step(sys, Back).a)
  {
    var a := Step(sys, Back).a;
    if !a.finished {
      assert IsClosingSave(a.queue[|sys.a.queue|]);
    }
  }

  /** Going back always finishes the activity: in every run after it, and whether or not the closing save succeeds, once
      nothing is queued, running or waiting for the UI thread. */
  lemma {:induction false} BackFinishes(sys: System, events: seq<Event>)
    requires !sys.a.destroyed
    requires var end := Play(Step(sys, Back), events).a; end.queue == [] && end.running.Free? && end.callbacks == []
    ensures Play(Step(sys, Back), events).a.finished
  {
    BackLeaves(sys);
    RunKeepsLeaving(Step(sys, Back), events);
  }

  /** saving is only set for an autosave that is under way or by leaving. */
  predicate SavingInv(a: Activity) {
    a.saving ==> Autosaves(a) > 0 || Leaving(a)
  }

  lemma {:induction false} SaveSetsSaving(a: Activity)
    requires SavingInv(a)
    ensures SavingInv(Saved(a))
  {
    QueuedAppend(a.queue, Save(a.edit, false));
    assert AutosavesQueued([Save(a.edit, false)]) == 1 + AutosavesQueued([Save(a.edit, false)][1..]);
    if Leaving(a) { UiKeepsLeaving(a); }
  }

  lemma {:induction false} DestroyKeepsSaving(a: Activity)
    requires SavingInv(a)
    ensures SavingInv(Destroyed(a))
  {
    QueuedAppend(a.queue, Disconnect);
    if Leaving(a) { UiKeepsLeaving(a); }
  }

  lemma {:induction false} DispatchKeepsSaving(a: Activity)
    requires SavingInv(a)
    ensures SavingInv(Dispatched(a))
  {
    if Leaving(a) { DispatchKeepsLeaving(a); }
  }

  lemma {:induction false} BeginKeepsSaving(a: Activity)
    requires SavingInv(a)
    ensures SavingInv(Begun(a))
  {
    if Leaving(a) { BeginKeepsLeaving(a); }
  }

  lemma {:induction false} EndKeepsSaving(a: Activity, reply: Option<int>)
    requires SavingInv(a)
    ensures SavingInv(Ended(a, reply))
  {
    EndKeepsAutosaves(a, reply);
    if Leaving(a) { EndKeepsLeaving(a, reply); }
  }

  lemma {:induction false} StepKeepsSaving(sys: System, e: Event)
    requires SavingInv(sys.a)
    ensures SavingInv(Step(sys, e).a)
  {
    if e.Back? {
      if !sys.a.destroyed { BackLeaves(sys); }
    } else if e.Timer? {
      if sys.a.timer { SaveSetsSaving(sys.a.(timer := false)); }
    } else if e.Destroy? {
      if !sys.a.destroyed { DestroyKeepsSaving(sys.a); }
    } else if e.Dispatch? {
      DispatchKeepsSaving(sys.a);
    } else if e.Start? {
      BeginKeepsSaving(sys.a);
    } else if e.End? {
      EndKeepsSaving(sys.a, Reply(sys.a.running, sys.w, e.heard));
    }
  }

  /** Only going back starts to leave, once the activity is open. */
  lemma {:induction false} StaysUnlessBack(sys: System, e: Event)
    requires !Leaving(sys.a) && !e.Back?
    ensures !Leaving(Step(sys, e).a)
  {
    var a, a' := sys.a, Step(sys, e).a;
    forall i | 0 <= i < |a'.queue| ensures !IsClosingSave(a'.queue[i]) {
      if |a'.queue| < |a.queue| {
        assert a'.queue[i] == a.queue[i + 1];
      } else if i < |a.queue| {
        assert a'.queue[i] == a.queue[i];
      }
    }
    forall i | 0 <= i < |a'.callbacks| ensures !IsClosingEnd(a'.callbacks[i]) {
      if |a'.callbacks| < |a.callbacks| {
        assert a'.callbacks[i] == a.callbacks[i + 1];
      } else if i < |a.callbacks| {
        assert a'.callbacks[i] == a.callbacks[i];
      }
    }
    if e.Start? && a.queue != [] { assert !IsClosingSave(a.queue[0]); }
    if e.Dispatch? && a.callbacks != [] { assert !IsClosingEnd(a.callbacks[0]); }
  }

  lemma {:induction false} RunKeepsSaving(sys: System, events: seq<Event>)
    requires SavingInv(sys.a) && !Leaving(sys.a) && forall e | e in events :: !e.Back?
    ensures SavingInv(Play(sys, events).a) && !Leaving(Play(sys, events).a)
    decreases |events|
  {
    if events != [] {
      assert events[0] in events;
      StepKeepsSaving(sys, events[0]);
      StaysUnlessBack(sys, events[0]);
      RunKeepsSaving(Step(sys, events[0]), events[1..]);
    }
  }

  lemma {:induction false} StepKeepsGone(sys: System, e: Event, id: int)
    requires id < sys.w.nextId && id !in sys.w.rows
    ensures id < Step(sys, e).w.nextId && id !in Step(sys, e).w.rows
  {
  }

  lemma {:induction false} RunKeepsGone(sys: System, events: seq<Event>, id: int)
    requires id < sys.w.nextId && id !in sys.w.rows
    ensures id !in Play(sys, events).w.rows
    decreases |events|
  {
    if events != [] {
      StepKeepsGone(sys, events[0], id);
      RunKeepsGone(Step(sys, events[0]), events[1..], id);
    }
  }

  /** A row that another session deletes is gone for good, whatever this one saves afterwards. */
  lemma {:induction false} DeletedStaysDeleted(sys: System, events: seq<Event>, id: int)
    requires id < sys.w.nextId
    ensures id !in Play(Step(sys, DeletedElsewhere(id)), events).w.rows
  {
    RunKeepsGone(Step(sys, DeletedElsewhere(id)), events, id);
  }

  /** As long as nobody goes back, an autosave that has ended, well or not, leaves the way free for the next: in every
      run from the opening that ends with nothing queued, running or waiting for the UI thread, the activity is open and
      not saving, and a timer that was set takes the text if there is a connection and a text. */
  lemma {:induction false} NextTimerSaves(
    entryId: int, initial: Option<string>, rows: map<int, string>, nextId: int, events: seq<Event>)
    requires forall e | e in events :: !e.Back?
    requires var end := Play(Opened(entryId, initial, true, rows, nextId), events).a;
             end.queue == [] && end.running.Free? && end.callbacks == []
    ensures var end := Play(Opened(entryId, initial, true, rows, nextId), events);
            && !end.a.finished && !end.a.saving
            && (end.a.timer && end.a.conn && end.a.edit != "" ==>
                  Step(end, Timer).a == end.a.(timer := false, saving := true, queue := [Save(end.a.edit, false)]))
  {
    var sys := Opened(entryId, initial, true, rows, nextId);
    assert !Leaving(sys.a);
    RunKeepsSaving(sys, events);
    assert Autosaves(Play(sys, events).a) == 0;
  }

  /** The outcomes that the posted callbacks report. */
  function Reported(callbacks: seq<Callback>): seq<bool> {
    if callbacks == [] then []
    else (if callbacks[0].Settled? then [callbacks[0].ok] else []) + Reported(callbacks[1..])
  }

  /** The outcomes of all finished calls. */
  function Outcomes(done: seq<Call>): seq<bool> {
    seq(|done|, i requires 0 <= i < |done| => done[i].acked)
  }

  lemma {:induction false} ReportedAppend(callbacks: seq<Callback>, callback: Callback)
    ensures Reported(callbacks + [callback]) == Reported(callbacks) + if callback.Settled? then [callback.ok] else []
  {
    if callbacks != [] {
      assert (callbacks + [callback])[1..] == callbacks[1..] + [callback];
      ReportedAppend(callbacks[1..], callback);
    } else {
      assert callbacks + [callback] == [callback] && [callback][1..] == [];
    }
  }

  /** The calls that the UI thread has heard of are the first ones, and the result is set when one of them succeeded. */
  ghost predicate ResultInv(sys: System, heard: seq<bool>) {
    Outcomes(sys.w.done) == heard + Reported(sys.a.callbacks) && (sys.a.result <==> true in heard)
  }

  lemma {:induction false} EndKeepsResult(sys: System, heard: bool, before: seq<bool>)
    requires ResultInv(sys, before)
    ensures ResultInv(Returned(sys, heard), before)
  {
    var sys' := Returned(sys, heard);
    if sys.a.running.Calling? {
      var ok := heard && sys.w.reached.Some?;
      ReportedAppend(sys.a.callbacks, Settled(sys.a.running.closing, ok));
      assert Outcomes(sys'.w.done) == Outcomes(sys.w.done) + [ok];
      assert Outcomes(sys'.w.done) == before + Reported(sys'.a.callbacks);
    } else {
      ReportedAppend(sys.a.callbacks, StatusOnly);
      assert Reported(sys.a.callbacks) + [] == Reported(sys.a.callbacks);
    }
  }

  lemma {:induction false} DispatchKeepsResult(sys: System, before: seq<bool>) returns (heard: seq<bool>)
    requires ResultInv(sys, before)
    ensures ResultInv(sys.(a := Dispatched(sys.a)), heard)
  {
    heard := before;
    if sys.a.callbacks != [] && sys.a.callbacks[0].Settled? {
      heard := before + [sys.a.callbacks[0].ok];
      assert heard + Reported(sys.a.callbacks[1..]) == before + Reported(sys.a.callbacks);
      assert true in heard <==> true in before || sys.a.callbacks[0].ok;
    } else if sys.a.callbacks != [] {
      assert Reported(sys.a.callbacks) == [] + Reported(sys.a.callbacks[1..]) == Reported(sys.a.callbacks[1..]);
    }
  }

  lemma {:induction false} RunKeepsResult(sys: System, events: seq<Event>, before: seq<bool>) returns (heard: seq<bool>)
    requires ResultInv(sys, before)
    ensures ResultInv(Play(sys, events), heard)
    decreases |events|
  {
    if events == [] {
      heard := before;
    } else {
      var e, next := events[0], before;
      if e.End? {
        EndKeepsResult(sys, e.heard, before);
      } else if e.Dispatch? {
        next := DispatchKeepsResult(sys, before);
      } else {
        OtherKeepsResult(sys, e, before);
      }
      heard := RunKeepsResult(Step(sys, e), events[1..], next);
    }
  }

  lemma {:induction false} OtherKeepsResult(sys: System, e: Event, before: seq<bool>)
    requires ResultInv(sys, before) && !e.End? && !e.Dispatch?
    ensures ResultInv(Step(sys, e), before)
  {
  }

  /** The screen that opened the activity is told of a change exactly when some save succeeded: in every run from the
      opening, once no callback is waiting. */
  lemma {:induction false} ResultIff(
    entryId: int, initial: Option<string>, keys: bool, rows: map<int, string>, nextId: int, events: seq<Event>)
    requires Play(Opened(entryId, initial, keys, rows, nextId), events).a.callbacks == []
    ensures var end := Play(Opened(entryId, initial, keys, rows, nextId), events);
            end.a.result <==> exists i :: 0 <= i < |end.w.done| && end.w.done[i].acked
  {
    var heard := RunKeepsResult(Opened(entryId, initial, keys, rows, nextId), events, []);
    var end := Play(Opened(entryId, initial, keys, rows, nextId), events);
    assert heard + [] == heard && Outcomes(end.w.done) == heard;
    if i :| 0 <= i < |end.w.done| && end.w.done[i].acked { assert heard[i]; }
    if true in heard {
      var i :| 0 <= i < |heard| && heard[i];
      assert end.w.done[i].acked;
    }
  }

  // ---------------------------------------------------------------------------------------------
  // What is stored in the end
  // ---------------------------------------------------------------------------------------------

  /** The rows after the first n calls, had nobody deleted any. */
  function Written(rows0: map<int, string>, done: seq<Call>, n: nat): map<int, string>
    requires n <= |done|
  {
    if n == 0 then rows0 else
      var rows, c := Written(rows0, done, n - 1), done[n - 1];
      if c.row.Some? then rows[c.row.value := c.text] else rows
  }

  /** The call that is running, as far as the server has got with it. */
  function Effects(sys: System): seq<Call> {
    if sys.a.running.Calling? && sys.w.reached.Some?
    then sys.w.done + [Call(sys.a.running.text, sys.a.running.target, sys.w.reached, false)] else sys.w.done
  }

  predicate Within(rows: map<int, string>, all: map<int, string>) {
    forall id | id in rows :: id in all && rows[id] == all[id]
  }

  /** Every row that is still there has the text that was last written to it. */
  ghost predicate RowsInv(sys: System, rows0: map<int, string>) {
    && Within(sys.w.rows, Written(rows0, Effects(sys), |Effects(sys)|))
    && (!sys.a.running.Calling? ==> sys.w.reached.None?)
  }

  lemma {:induction false} WrittenPrefix(rows0: map<int, string>, done: seq<Call>, more: seq<Call>, n: nat)
    requires n <= |done| && n <= |more| && done[..n] == more[..n]
    ensures Written(rows0, more, n) == Written(rows0, done, n)
  {
    if n > 0 {
      assert done[..n][n - 1] == done[n - 1] && more[..n][n - 1] == more[n - 1];
      assert done[..n - 1] == done[..n][..n - 1] && more[..n - 1] == more[..n][..n - 1];
      WrittenPrefix(rows0, done, more, n - 1);
    }
  }

  /** One more effect. */
  lemma {:induction false} WrittenGrows(rows0: map<int, string>, done: seq<Call>, more: seq<Call>, c: Call)
    requires more == done + [c]
    ensures Written(rows0, more, |more|) ==
            if c.row.Some? then Written(rows0, done, |done|)[c.row.value := c.text] else Written(rows0, done, |done|)
  {
    assert more[..|done|] == done == done[..|done|];
    WrittenPrefix(rows0, done, more, |done|);
  }

  lemma {:induction false} ReachKeepsRows(sys: System, id: int, rows0: map<int, string>)
    requires RowsInv(sys, rows0)
    ensures RowsInv(Reached(sys, id), rows0)
  {
    var sys' := Reached(sys, id);
    if sys' != sys {
      var c := Call(sys.a.running.text, sys.a.running.target, sys'.w.reached, false);
      assert Effects(sys') == sys.w.done + [c];
      WrittenGrows(rows0, sys.w.done, Effects(sys'), c);
    }
  }

  lemma {:induction false} ReturnKeepsRows(sys: System, heard: bool, rows0: map<int, string>)
    requires RowsInv(sys, rows0)
    ensures RowsInv(Returned(sys, heard), rows0)
  {
    var sys' := Returned(sys, heard);
    if sys.a.running.Calling? {
      var c := sys'.w.done[|sys.w.done|];
      assert Effects(sys') == sys.w.done + [c];
      WrittenGrows(rows0, sys.w.done, Effects(sys'), c);
      if sys.w.reached.Some? {
        WrittenGrows(rows0, sys.w.done, Effects(sys), Effects(sys)[|sys.w.done|]);
      }
    }
  }

  lemma {:induction false} StepKeepsRows(sys: System, e: Event, rows0: map<int, string>)
    requires RowsInv(sys, rows0)
    ensures RowsInv(Step(sys, e), rows0)
  {
    if e.Reach? {
      ReachKeepsRows(sys, e.id, rows0);
    } else if e.End? {
      ReturnKeepsRows(sys, e.heard, rows0);
    } else {
      assert e.Start? || Effects(Step(sys, e)) == Effects(sys);
    }
  }

  ghost predicate Inv(sys: System, id0: int, rows0: map<int, string>) {
    IdInv(sys, id0) && OneRow(sys, id0, rows0) && RowsInv(sys, rows0) && Orderly(sys.a)
  }

  /** The invariants hold over every run from the opening of the activity. */
  lemma {:induction false} RunKeepsInv(sys: System, events: seq<Event>, id0: int, rows0: map<int, string>)
    requires Inv(sys, id0, rows0)
    ensures Inv(Play(sys, events), id0, rows0)
    decreases |events|
  {
    if events != [] {
      StepKeepsId(sys, events[0], id0);
      StepKeepsOneRow(sys, events[0], id0, rows0);
      StepKeepsRows(sys, events[0], rows0);
      StepKeepsOrder(sys, events[0]);
      RunKeepsInv(Step(sys, events[0]), events[1..], id0, rows0);
    }
  }

  lemma {:induction false} OpenedInv(
    entryId: int, initial: Option<string>, keys: bool, rows: map<int, string>, nextId: int)
    requires nextId >= 1 && forall id | id in rows :: id < nextId
    ensures Inv(Opened(entryId, initial, keys, rows, nextId), entryId, rows)
  {
    assert [Connect][1..] == [];
  }

  /** One activity stores at most one new row, whatever the interleaving, however many saves fail and whether or not
      replies are lost; and none when an existing entry was opened. */
  lemma {:induction false} StoresAtMostOneRow(
    entryId: int, initial: Option<string>, keys: bool, rows: map<int, string>, nextId: int, events: seq<Event>)
    requires nextId >= 1 && forall id | id in rows :: id < nextId
    ensures var end := Play(Opened(entryId, initial, keys, rows, nextId), events);
            && (forall i, j | i in end.w.rows && i !in rows && j in end.w.rows && j !in rows :: i == j)
            && (entryId > 0 ==> end.w.rows.Keys <= rows.Keys)
  {
    OpenedInv(entryId, initial, keys, rows, nextId);
    RunKeepsInv(Opened(entryId, initial, keys, rows, nextId), events, entryId, rows);
  }

  /** Nothing is queued or running. */
  predicate Drained(a: Activity) {
    a.queue == [] && a.running.Free?
  }

  lemma {:induction false} LastWrite(rows0: map<int, string>, done: seq<Call>, k: nat, n: nat, id: int)
    requires k < n <= |done| && done[k].row == Some(id)
    requires forall j | k < j < n :: done[j].row != Some(id)
    ensures id in Written(rows0, done, n) && Written(rows0, done, n)[id] == done[k].text
  {
    if k < n - 1 {
      LastWrite(rows0, done, k, n - 1, id);
    }
  }

  /** Once the queue has drained, a row holds the text of the last task that reached the server with it; that is the
      last successful task, unless the reply to a later one was lost. */
  lemma {:induction false} DrainedHoldsLastText(sys: System, id0: int, rows0: map<int, string>, k: nat)
    requires Inv(sys, id0, rows0) && Drained(sys.a) && k < |sys.w.done| && sys.w.done[k].row.Some?
    requires forall j | k < j < |sys.w.done| :: sys.w.done[j].row != sys.w.done[k].row
    ensures sys.w.done[k].row.value in sys.w.rows ==> sys.w.rows[sys.w.done[k].row.value] == sys.w.done[k].text
  {
    LastWrite(rows0, sys.w.done, k, |sys.w.done|, sys.w.done[k].row.value);
  }

  /** The last text captured, or the original one. */
  function LastText(sys: System): string {
    var texts := Captured(sys);
    if texts == [] then sys.a.original else texts[|texts| - 1]
  }

  lemma {:induction false} DoneTextsLast(done: seq<Call>)
    ensures |DoneTexts(done)| == |done|
    ensures done != [] ==> DoneTexts(done)[|done| - 1] == done[|done| - 1].text
  {
    if done != [] {
      DoneTextsLast(done[..|done| - 1]);
    }
  }

  /** The last call of the activity, if there was one, succeeded. */
  predicate LastCallSucceeded(done: seq<Call>) {
    done == [] || done[|done| - 1].acked
  }

  /** Once the queue has drained with a successful call, the entry has an id exactly when it had one or a text was
      captured, and if nobody deleted it, it holds the text captured last. */
  lemma {:induction false} DrainedHoldsLastCapture(sys: System, id0: int, rows0: map<int, string>)
    requires Inv(sys, id0, rows0) && Drained(sys.a) && LastCallSucceeded(sys.w.done)
    requires id0 in rows0 ==> rows0[id0] == sys.a.original
    ensures sys.a.entryId > 0 <==> id0 > 0 || Captured(sys) != []
    ensures sys.a.entryId in sys.w.rows && sys.a.entryId > 0 ==> sys.w.rows[sys.a.entryId] == LastText(sys)
  {
    var done := sys.w.done;
    var n := |done|;
    DoneTextsLast(done);
    assert Captured(sys) == DoneTexts(done);
    if n > 0 {
      assert RowOk(done[n - 1]) && done[n - 1].target == CurrentId(id0, done, n - 1);
      IdAfterAck(id0, done, n - 1);
      DrainedHoldsLastText(sys, id0, rows0, n - 1);
    }
  }

  /** Nothing is typed, no timer fires and nobody leaves. */
  predicate Quiet(events: seq<Event>) {
    forall e | e in events :: !e.Type? && !e.Timer? && !e.Back?
  }

  lemma {:induction false} QuietStep(sys: System, e: Event)
    requires !e.Timer? && !e.Back?
    ensures Captured(Step(sys, e)) == Captured(sys)
  {
    StepCaptures(sys, e);
  }

  lemma {:induction false} OriginalStays(sys: System, e: Event)
    ensures Step(sys, e).a.original == sys.a.original
  {
  }

  lemma {:induction false} QuietCapturesNothing(sys: System, events: seq<Event>)
    requires Quiet(events)
    ensures Captured(Play(sys, events)) == Captured(sys) && Play(sys, events).a.original == sys.a.original
    decreases |events|
  {
    if events != [] {
      assert events[0] in events;
      QuietStep(sys, events[0]);
      OriginalStays(sys, events[0]);
      QuietCapturesNothing(Step(sys, events[0]), events[1..]);
    }
  }

  /** What is captured last, after an event and a quiet run. */
  lemma {:induction false} LastTextAfter(sys: System, e: Event, after: seq<Event>)
    requires Quiet(after)
    ensures LastText(Play(Step(sys, e), after)) == if Takes(sys.a, e) then sys.a.edit else LastText(sys)
  {
    StepCaptures(sys, e);
    QuietCapturesNothing(Step(sys, e), after);
    OriginalStays(sys, e);
  }

  /** What leaving, or the autosave timer, is for: the text on the screen ends up in the entry. When the last call
      succeeds and nobody deletes the entry, it does exactly when the guard takes the text, or the text is what was
      captured last anyway and there is an entry. For leaving the guard misses a text typed before the connection is
      there, and one that was changed, saved, and changed back; for the timer, one that fires during a save. */
  lemma {:induction false} ScreenTextIsStoredIff(
    sys: System, e: Event, after: seq<Event>, id0: int, rows0: map<int, string>)
    requires Inv(sys, id0, rows0) && (e.Back? || e.Timer?) && Quiet(after)
    requires var end := Play(Step(sys, e), after); Drained(end.a) && LastCallSucceeded(end.w.done)
    requires id0 in rows0 ==> rows0[id0] == sys.a.original
    ensures var end := Play(Step(sys, e), after);
            var id := end.a.entryId;
            id > 0 && id in end.w.rows && end.w.rows[id] == sys.a.edit
            <==> && (Takes(sys.a, e) || (LastText(sys) == sys.a.edit && (id0 > 0 || Captured(sys) != [])))
                 && (id > 0 ==> id in end.w.rows)
  {
    StepCaptures(sys, e);
    LastTextAfter(sys, e, after);
    OriginalStays(sys, e);
    QuietCapturesNothing(Step(sys, e), after);
    RunKeepsInv(sys, [e] + after, id0, rows0);
    PlayFirst(sys, e, after);
    DrainedHoldsLastCapture(Play(Step(sys, e), after), id0, rows0);
  }

  lemma {:induction false} PlayFirst(sys: System, e: Event, rest: seq<Event>)
    ensures Play(sys, [e] + rest) == Play(Step(sys, e), rest)
  {
    assert ([e] + rest)[1..] == rest;
  }

  // ---------------------------------------------------------------------------------------------
  // Runs in which the text on the screen is not what is stored
  // ---------------------------------------------------------------------------------------------

  lemma {:induction false} PlayConcat(sys: System, first: seq<Event>, second: seq<Event>)
    ensures Play(sys, first + second) == Play(Play(sys, first), second)
    decreases |first|
  {
    if first == [] {
      assert first + second == second;
    } else {
      assert (first + second)[1..] == first[1..] + second;
      PlayConcat(Step(sys, first[0]), first[1..], second);
    }
  }

  lemma {:induction false} PlayTwo(sys: System, e: Event, f: Event)
    ensures Play(sys, [e, f]) == Step(Step(sys, e), f)
  {
    assert [e, f][1..] == [f] && [f][1..] == [];
    assert Play(sys, [e, f]) == Play(Step(sys, e), [f]);
    assert Play(Step(sys, e), [f]) == Play(Step(Step(sys, e), f), []);
  }

  lemma {:induction false} PlayThree(sys: System, e: Event, f: Event, g: Event)
    ensures Play(sys, [e, f, g]) == Step(Step(Step(sys, e), f), g)
  {
    assert [e, f, g][1..] == [f, g];
    PlayTwo(Step(sys, e), f, g);
  }

  const CONNECTING := [Start, Assign, End(true)]

  lemma {:induction false} ConnectionMade(sys: System)
    requires sys.a.running.Free? && sys.a.queue == [Connect]
    ensures Play(sys, CONNECTING)
            == sys.(a := sys.a.(conn := true, queue := [], callbacks := sys.a.callbacks + [StatusOnly]))
  {
    PlayThree(sys, Start, Assign, End(true));
    assert [Connect][1..] == [];
  }

  function Calls(id: int): seq<Event> {
    [Start, Reach(id), End(true)]
  }

  /** A call that succeeds, from start to end. */
  lemma {:induction false} OneCall(sys: System, id: int)
    requires sys.a.running.Free? && |sys.a.queue| == 1 && sys.a.queue[0].Save? && sys.w.reached.None? && !sys.w.dead
    requires if sys.a.entryId > 0 then sys.a.entryId == id && id in sys.w.rows else id >= sys.w.nextId
    ensures var a, w, end := sys.a, sys.w, Play(sys, Calls(id));
            && end.a == a.(queue := [], callbacks := a.callbacks + [Settled(a.queue[0].closing, true)], entryId := id)
            && end.w.rows == w.rows[id := a.queue[0].text] && end.w.reached.None?
            && end.w.nextId == if a.entryId > 0 then w.nextId else id + 1
  {
    PlayThree(sys, Start, Reach(id), End(true));
    assert sys.a.queue[1..] == [];
  }

  /** The timer fires while a save is under way and is not set again: with nothing left to happen and the activity
      still open, the last character is on the screen only. */
  lemma {:induction false} AutosaveDropped() returns (events: seq<Event>)
    ensures var end := Play(Opened(-1, Some(""), true, map[], 1), events);
            && Drained(end.a) && end.a.callbacks == [] && !end.a.timer && !end.a.saving && !end.a.finished
            && end.a.edit == "ab" && end.w.rows == map[1 := "a"]
  {
    var s0 := Opened(-1, Some(""), true, map[], 1);
    ConnectionMade(s0);
    var s1 := Play(s0, CONNECTING);
    PlayTwo(s1, Type("a"), Timer);
    var s2 := Play(s1, [Type("a"), Timer]);
    PlayTwo(s2, Type("ab"), Timer);
    var s3 := Play(s2, [Type("ab"), Timer]);
    OneCall(s3, 1);
    var s4 := Play(s3, Calls(1));
    PlayTwo(s4, Dispatch, Dispatch);
    events := CONNECTING;
    PlayConcat(s0, events, [Type("a"), Timer]);
    events := events + [Type("a"), Timer];
    PlayConcat(s0, events, [Type("ab"), Timer]);
    events := events + [Type("ab"), Timer];
    PlayConcat(s0, events, Calls(1));
    events := events + Calls(1);
    PlayConcat(s0, events, [Dispatch, Dispatch]);
    events := events + [Dispatch, Dispatch];
  }

  /** A text is changed, autosaved, changed back, and the activity left: the entry keeps the text that was changed. */
  lemma {:induction false} RevertedTextIsLost() returns (events: seq<Event>)
    ensures var end := Play(Opened(7, Some("old"), true, map[7 := "old"], 8), events);
            && Drained(end.a) && end.a.callbacks == [] && end.a.finished && end.a.result
            && end.a.edit == "old" && end.w.rows == map[7 := "new"]
  {
    var s0 := Opened(7, Some("old"), true, map[7 := "old"], 8);
    ConnectionMade(s0);
    var s1 := Play(s0, CONNECTING);
    PlayTwo(s1, Type("new"), Timer);
    var s2 := Play(s1, [Type("new"), Timer]);
    OneCall(s2, 7);
    var s3 := Play(s2, Calls(7));
    PlayTwo(s3, Dispatch, Dispatch);
    var s4 := Play(s3, [Dispatch, Dispatch]);
    assert s4.a.original == "old" && s4.a.conn && s4.a.result && !s4.a.destroyed && s4.a.callbacks == [];
    assert s4.w.rows == map[7 := "new"];
    PlayTwo(s4, Type("old"), Back);
    events := CONNECTING;
    PlayConcat(s0, events, [Type("new"), Timer]);
    events := events + [Type("new"), Timer];
    PlayConcat(s0, events, Calls(7));
    events := events + Calls(7);
    PlayConcat(s0, events, [Dispatch, Dispatch]);
    events := events + [Dispatch, Dispatch];
    PlayConcat(s0, events, [Type("old"), Back]);
    events := events + [Type("old"), Back];
  }

  /** A new entry is typed and left before the connection is there: nothing is stored, and the activity is gone. */
  lemma {:induction false} LeftUnconnected() returns (events: seq<Event>)
    ensures var end := Play(Opened(-1, Some(""), true, map[], 1), events);
            && Drained(end.a) && end.a.finished && !end.w.dead && end.a.edit == "a" && end.w.rows == map[]
  {
    var s0 := Opened(-1, Some(""), true, map[], 1);
    PlayTwo(s0, Type("a"), Back);
    ConnectionMade(Play(s0, [Type("a"), Back]));
    events := [Type("a"), Back] + CONNECTING;
    PlayConcat(s0, [Type("a"), Back], CONNECTING);
  }
}
