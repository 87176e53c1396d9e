/** Runs of applications: what they see of their memory, whatever the others do. */
module AppRuns {
  import opened Common
  import opened PageMapEntry
  import opened PageTree
  import opened Isolation
  import opened FlatMemory
  import opened FlatHistory
  import opened Paging

  /** What applications do, and what the system does for them. Addresses are the low 48 bits. */
  datatype Operation =
    | Load(app: nat, segments: seq<Segment>)
    | Launch(app: nat, template: nat, vaddrEnd: nat)
    | Store(app: nat, causal: nat, k: Index, w: Word)
    | Read(app: nat, causal: nat, k: Index)
    /** A system call writes a word into the application's memory. */
    | Fill(app: nat, causal: nat, k: Index, w: Word)
    | Grow(app: nat, pages: nat)
    | Map(app: nat, file: nat)
    | Write(app: nat, file: nat, content: seq<Byte>)
    | Exit(app: nat)

  predicate UserPage(causal: nat) {
    USER_BEGIN <= causal / 4096 < VPN_COUNT
  }

  /** Images leave the stack and argument pages free; applications use their own half. */
  ghost predicate OperationOk(op: Operation) {
    match op
    case Load(_, segments) => BelowStack(segments) && forall seg :: seg in segments ==> SegmentOk(seg)
    case Store(_, causal, _, _) => UserPage(causal)
    case Read(_, causal, _) => UserPage(causal)
    case Fill(_, causal, _, _) => UserPage(causal)
    case _ => true
  }

  /** The event of an operation that succeeded; what was read is the event's own. */
  predicate Outcome(op: Operation, e: Event) {
    e.app == op.app &&
    match op
    case Load(_, segments) => e == Loaded(op.app, segments) || e.Broke? || e.Refused?
    case Launch(_, t, vaddrEnd) => e == Launched(op.app, t, vaddrEnd) || e.Broke? || e.Refused?
    case Store(_, causal, k, w) => e == Stored(op.app, causal, k, w) || e.Refused?
    case Read(_, causal, k) => (e.Fetched? && e.causal == causal && e.k == k) || e.Refused?
    case Fill(_, causal, k, w) => e == Stored(op.app, causal, k, w) || e == Spoiled(op.app, causal, k, w) || e.Refused?
    case Grow(_, n) => e == Grew(op.app, n) || e.Refused?
    case Map(_, file) => e == Mapped(op.app, file) || e.Refused?
    case Write(_, file, content) => e == Written(op.app, file, content) || e.Refused?
    case Exit(_) => e.Exited? || e.Refused?
  }

  /** The images leave the stack and argument pages free. */
  ghost predicate ImagesClear(ram: Ram, tree: Tree, appLoads: map<nat, nat>) {
    forall t :: t in appLoads ==> ClearFrom(ram, tree, t, STACK_BEGIN)
  }

  ghost predicate Ready(m: Machine)
    reads m, m.memoryManager, m.memoryManager.allocMap
  {
    m.Inv() && ImagesClear(m.ram, m.tree, m.appLoads)
  }

  // ---- Agreement of the machine with the log

  /** Page q of app holds what the log says. */
  ghost predicate PageAgrees(ram: Ram, tree: Tree, log: seq<Event>, app: nat, q: nat) {
    View(ram, tree, app, q) == Present(log, app, q)
  }

  ghost predicate PagesAgree(ram: Ram, tree: Tree, log: seq<Event>, app: nat) {
    forall q: nat :: USER_BEGIN <= q < VPN_COUNT ==> PageAgrees(ram, tree, log, app, q)
  }

  /** An image or application whose life is in the log is as the log says. */
  ghost predicate AppAgrees(ram: Ram, tree: Tree, kinds: Kinds, tasks: map<nat, TaskMemory>, log: seq<Event>, app: nat) {
    && app in kinds && PagesAgree(ram, tree, log, app)
    && (app in tasks ==> tasks[app].(cr3 := 0) == Areas(log, app))
  }

  /** The machine is as the log says, for all whose whole life is in it: for none if it is empty. */
  ghost predicate Agrees(ram: Ram, tree: Tree, kinds: Kinds, tasks: map<nat, TaskMemory>, files: Files, log: seq<Event>) {
    files == Contents(log) && forall app: nat :: Known(log, app) ==> AppAgrees(ram, tree, kinds, tasks, log, app)
  }

  function FilesAfter(files: Files, e: Event): Files {
    if e.Written? then files[e.file := e.content] else files
  }

  /** The rest of the system keeps agreeing when app acts. */
  lemma OthersAgree(ram: Ram, tree: Tree, kinds: Kinds, tasks: map<nat, TaskMemory>, files: Files,
                    ram': Ram, tree': Tree, kinds': Kinds, tasks': map<nat, TaskMemory>, base: set<nat>, log: seq<Event>, e: Event)
    requires Agrees(ram, tree, kinds, tasks, files, log) && OnlySpace(ram, tree, kinds, ram', tree', kinds', base, e.app)
    requires forall r :: r != e.app ==> (r in tasks' <==> r in tasks) && (r in tasks' ==> tasks'[r] == tasks[r])
    requires Known(log + [e], e.app) ==> AppAgrees(ram', tree', kinds', tasks', log + [e], e.app)
    ensures Agrees(ram', tree', kinds', tasks', FilesAfter(files, e), log + [e])
  {
    hide View, AppAgrees, Areas, Present;
    assert (log + [e])[..|log|] == log;
    forall app: nat | Known(log + [e], app) ensures AppAgrees(ram', tree', kinds', tasks', log + [e], app) {
      if app != e.app {
        OtherAgrees(ram, tree, kinds, tasks, ram', tree', kinds', tasks', base, log, e, app);
      }
    }
  }

  lemma OtherAgrees(ram: Ram, tree: Tree, kinds: Kinds, tasks: map<nat, TaskMemory>,
                    ram': Ram, tree': Tree, kinds': Kinds, tasks': map<nat, TaskMemory>, base: set<nat>, log: seq<Event>, e: Event, app: nat)
    requires AppAgrees(ram, tree, kinds, tasks, log, app) && OnlySpace(ram, tree, kinds, ram', tree', kinds', base, e.app)
    requires app != e.app && (app in tasks' <==> app in tasks) && (app in tasks' ==> tasks'[app] == tasks[app])
    ensures AppAgrees(ram', tree', kinds', tasks', log + [e], app)
  {
    hide View, Leaf;
    assert (log + [e])[..|log|] == log;
    forall q: nat | USER_BEGIN <= q < VPN_COUNT ensures PageAgrees(ram', tree', log + [e], app, q) {
      assert PageAgrees(ram, tree, log, app, q);
      assert View(ram', tree', app, q) == View(ram, tree, app, q);
    }
  }

  lemma KnownAfter(log: seq<Event>, e: Event)
    ensures Known(log + [e], e.app) ==
      if e.Loaded? then true else if e.Launched? then Known(log, e.template) else if e.Exited? || e.Broke? then false else Known(log, e.app)
  {
    assert (log + [e])[..|log|] == log;
  }

  // ---- One lemma for each kind of event

  /** What the page a task touches shows is what the log says. */
  lemma ShownAgrees(ram: Ram, tree: Tree, kinds: Kinds, tasks: map<nat, TaskMemory>, files: Files, log: seq<Event>, s: nat, q: nat)
    requires AppAgrees(ram, tree, kinds, tasks, log, s) && files == Contents(log) && s in tasks && USER_BEGIN <= q < VPN_COUNT
    ensures PageShown(ram, tree, s, tasks[s], files, q) == Shown(log, s, q)
  {
    hide View, Present, Areas, FirstMapping;
    assert PageAgrees(ram, tree, log, s, q);
    SameServed(tasks[s], files, q);
  }

  lemma SameServed(t: TaskMemory, files: Files, q: nat)
    ensures Served(t.(cr3 := 0), files, q) == Served(t, files, q)
  {}

  /** One page of the application was touched: read, or stored to. */
  lemma TouchAgrees(ram: Ram, tree: Tree, kinds: Kinds, tasks: map<nat, TaskMemory>, files: Files, ram': Ram, tree': Tree, kinds': Kinds,
                    log: seq<Event>, e: Event)
    requires e.Stored? || e.Fetched?
    requires AppAgrees(ram, tree, kinds, tasks, log, e.app) && files == Contents(log)
    requires e.app in tasks && UserPage(e.causal) && e.app in kinds'
    requires forall q: nat :: q != e.causal / 4096 ==> View(ram', tree', e.app, q) == View(ram, tree, e.app, q)
    requires var p := PageShown(ram, tree, e.app, tasks[e.app], files, e.causal / 4096);
      View(ram', tree', e.app, e.causal / 4096) == if e.Stored? then Put(p, e.k, e.w) else p
    ensures AppAgrees(ram', tree', kinds', tasks, log + [e], e.app)
  {
    hide View, Served, PageShown;
    assert (log + [e])[..|log|] == log;
    ShownAgrees(ram, tree, kinds, tasks, files, log, e.app, e.causal / 4096);
    forall q: nat | USER_BEGIN <= q < VPN_COUNT ensures PageAgrees(ram', tree', log + [e], e.app, q) {
      assert PageAgrees(ram, tree, log, e.app, q);
    }
  }

  /** Nothing that the application sees has changed. */
  lemma RefusedAgrees(ram: Ram, tree: Tree, kinds: Kinds, tasks: map<nat, TaskMemory>, ram': Ram, tree': Tree, kinds': Kinds,
                      log: seq<Event>, e: Event)
    requires e.Refused? && AppAgrees(ram, tree, kinds, tasks, log, e.app) && e.app in kinds'
    requires forall q: nat :: USER_BEGIN <= q < VPN_COUNT ==> View(ram', tree', e.app, q) == View(ram, tree, e.app, q)
    ensures AppAgrees(ram', tree', kinds', tasks, log + [e], e.app)
  {
    hide View;
    assert (log + [e])[..|log|] == log;
    forall q: nat | USER_BEGIN <= q < VPN_COUNT ensures PageAgrees(ram', tree', log + [e], e.app, q) {
      assert PageAgrees(ram, tree, log, e.app, q);
    }
  }

  lemma GrownAreas(log: seq<Event>, e: Event, q: nat)
    requires e.Grew? || e.Mapped?
    ensures Present(log + [e], e.app, q) == Present(log, e.app, q)
    ensures var t := Areas(log, e.app);
      && (e.Grew? ==> Areas(log + [e], e.app) == t.(dpagingEnd := t.dpagingEnd + 4096 * e.pages))
      && (e.Mapped? && |Content(Contents(log), e.file)| <= t.fileMapEnd ==>
           Areas(log + [e], e.app) == WithFile(t, e.file, |Content(Contents(log), e.file)|))
  {
    hide WithFile, Served;
    assert (log + [e])[..|log|] == log;
  }

  /** Heap or file area have grown. */
  lemma AreasAgree(ram: Ram, tree: Tree, kinds: Kinds, tasks: map<nat, TaskMemory>, tasks': map<nat, TaskMemory>, files: Files, log: seq<Event>, e: Event)
    requires AppAgrees(ram, tree, kinds, tasks, log, e.app) && files == Contents(log) && e.app in tasks && e.app in tasks'
    requires e.Grew? || e.Mapped?
    requires e.Grew? ==> tasks'[e.app] == tasks[e.app].(dpagingEnd := tasks[e.app].dpagingEnd + 4096 * e.pages)
    requires e.Mapped? ==> var size := |Content(files, e.file)|;
      size <= tasks[e.app].fileMapEnd && tasks'[e.app] == WithFile(tasks[e.app], e.file, size)
    ensures AppAgrees(ram, tree, kinds, tasks', log + [e], e.app)
  {
    hide View, Present, Areas;
    GrownAreas(log, e, 0);
    forall q: nat | USER_BEGIN <= q < VPN_COUNT ensures PageAgrees(ram, tree, log + [e], e.app, q) {
      assert PageAgrees(ram, tree, log, e.app, q);
      GrownAreas(log, e, q);
    }
  }

  lemma LoadedAgrees(ram: Ram, tree: Tree, kinds: Kinds, tasks: map<nat, TaskMemory>, log: seq<Event>, e: Event)
    requires e.Loaded? && e.app in kinds && e.app !in tasks && ImageLoaded(ram, tree, e.app, e.segments)
    ensures AppAgrees(ram, tree, kinds, tasks, log + [e], e.app)
  {
    hide View, ImagePage;
    assert (log + [e])[..|log|] == log;
    forall q: nat | USER_BEGIN <= q < VPN_COUNT ensures PageAgrees(ram, tree, log + [e], e.app, q) {}
  }

  lemma LaunchedAgrees(ram: Ram, tree: Tree, kinds: Kinds, tasks: map<nat, TaskMemory>, ram': Ram, tree': Tree, kinds': Kinds,
                       tasks': map<nat, TaskMemory>, log: seq<Event>, e: Event, cr3: nat)
    requires e.Launched? && AppAgrees(ram, tree, kinds, tasks, log, e.template) && e.app in kinds' && e.app in tasks'
    requires StartedFrom(ram, tree, ram', tree', e.app, e.template) && tasks'[e.app] == FirstAreas(e.vaddrEnd).(cr3 := cr3)
    ensures AppAgrees(ram', tree', kinds', tasks', log + [e], e.app)
  {
    hide View;
    assert (log + [e])[..|log|] == log;
    forall q: nat | USER_BEGIN <= q < VPN_COUNT ensures PageAgrees(ram', tree', log + [e], e.app, q) {
      assert PageAgrees(ram, tree, log, e.template, q);
      assert View(ram', tree', e.app, q) == StartPage(View(ram, tree, e.template, q), q);
    }
  }

  // ---- Images below the stack

  lemma {:induction false} ImageBelow(segments: seq<Segment>, q: nat)
    requires BelowStack(segments) && q >= STACK_BEGIN
    ensures ImagePage(segments, q) == None
  {
    if segments != [] {
      var seg := segments[|segments| - 1];
      assert seg in segments;
      ImageBelow(segments[..|segments| - 1], q);
    }
  }

  lemma ImageIsClear(ram: Ram, tree: Tree, kinds: Kinds, t: nat, segments: seq<Segment>)
    requires Shape(ram, tree, kinds) && ImageLoaded(ram, tree, t, segments) && BelowStack(segments)
    ensures ClearFrom(ram, tree, t, STACK_BEGIN)
  {
    hide View, Leaf, Shape, ImagePage;
    forall q: nat | STACK_BEGIN <= q < VPN_COUNT ensures Leaf(ram, tree, t, q) == None {
      ImageBelow(segments, q);
      MappedIsSeen(ram, tree, kinds, t, q);
    }
  }

  lemma ImagesStayClear(ram: Ram, tree: Tree, kinds: Kinds, ram': Ram, tree': Tree, kinds': Kinds, base: set<nat>, s: nat,
                        appLoads: map<nat, nat>, appLoads': map<nat, nat>)
    requires ImagesClear(ram, tree, appLoads) && OnlySpace(ram, tree, kinds, ram', tree', kinds', base, s)
    requires forall t :: t in appLoads' && t != s ==> t in appLoads
    requires s in appLoads' ==> ClearFrom(ram', tree', s, STACK_BEGIN)
    ensures ImagesClear(ram', tree', appLoads')
  {
    hide View, Leaf;
    forall t | t in appLoads' ensures ClearFrom(ram', tree', t, STACK_BEGIN) {
      if t != s {
        assert ClearFrom(ram, tree, t, STACK_BEGIN);
        forall q: nat | STACK_BEGIN <= q < VPN_COUNT ensures Leaf(ram', tree', t, q) == None {
          assert Leaf(ram', tree', t, q) == Leaf(ram, tree, t, q);
        }
      }
    }
  }

  // ---- Steps

  /** What is read is what the log says is there, and what is touched is there. */
  ghost predicate Truthful(log: seq<Event>, e: Event) {
    e.Stored? || e.Fetched? ==>
      && Shown(log, e.app, e.causal / 4096).Some?
      && (e.Fetched? ==> e.w == Shown(log, e.app, e.causal / 4096).value[e.k])
  }

  /** A file that is mapped anywhere is not made shorter. */
  predicate Keeps(tasks: map<nat, TaskMemory>, files: Files, file: nat, content: seq<Byte>) {
    forall s, m | s in tasks && m in tasks[s].fileMaps :: m.file == file ==> |Content(files, file)| <= |content|
  }

  /** One step is a change of the acting space only, and the machine goes on agreeing with the log. */
  ghost predicate Stepped(op: Operation, e: Event, ram: Ram, tree: Tree, kinds: Kinds, tasks: map<nat, TaskMemory>, files: Files,
                          ram': Ram, tree': Tree, kinds': Kinds, tasks': map<nat, TaskMemory>, base: set<nat>, log: seq<Event>) {
    && Outcome(op, e) && OnlySpace(ram, tree, kinds, ram', tree', kinds', base, op.app)
    && (Agrees(ram, tree, kinds, tasks, files, log) ==> Agrees(ram', tree', kinds', tasks', FilesAfter(files, e), log + [e]))
    && (Agrees(ram, tree, kinds, tasks, files, log) && Known(log, op.app) ==> Truthful(log, e))
  }

  /** A page access that is refused was to a page that is not there, or memory is full. */
  ghost predicate Fair(op: Operation, e: Event, ram: Ram, tree: Tree, tasks: map<nat, TaskMemory>, files: Files, full: bool) {
    (op.Store? || op.Read? || op.Fill?) && op.app in tasks && e.Refused? ==>
      full || PageShown(ram, tree, op.app, tasks[op.app], files, op.causal / 4096) == None
  }

  lemma TouchStepped(op: Operation, e: Event, ram: Ram, tree: Tree, kinds: Kinds, tasks: map<nat, TaskMemory>, files: Files,
                     ram': Ram, tree': Tree, base: set<nat>, log: seq<Event>)
    requires (e.Stored? || e.Fetched?) && Outcome(op, e) && op.app in tasks && op.app in kinds && UserPage(e.causal)
    requires OnlySpace(ram, tree, kinds, ram', tree', kinds, base, op.app)
    requires forall q: nat :: q != e.causal / 4096 ==> View(ram', tree', e.app, q) == View(ram, tree, e.app, q)
    requires var p := PageShown(ram, tree, e.app, tasks[e.app], files, e.causal / 4096);
      p.Some? && View(ram', tree', e.app, e.causal / 4096) == (if e.Stored? then Put(p, e.k, e.w) else p) && (e.Fetched? ==> e.w == p.value[e.k])
    ensures Stepped(op, e, ram, tree, kinds, tasks, files, ram', tree', kinds, tasks, base, log)
  {
    hide OnlySpace, View, PageShown, AppAgrees, Shown;
    if Agrees(ram, tree, kinds, tasks, files, log) {
      KnownAfter(log, e);
      if Known(log, e.app) {
        ShownAgrees(ram, tree, kinds, tasks, files, log, e.app, e.causal / 4096);
        TouchAgrees(ram, tree, kinds, tasks, files, ram', tree', kinds, log, e);
      }
      OthersAgree(ram, tree, kinds, tasks, files, ram', tree', kinds, tasks, base, log, e);
    }
  }

  lemma RefusedStepped(op: Operation, e: Event, ram: Ram, tree: Tree, kinds: Kinds, tasks: map<nat, TaskMemory>, files: Files,
                       ram': Ram, tree': Tree, base: set<nat>, log: seq<Event>)
    requires e == Refused(op.app) && OnlySpace(ram, tree, kinds, ram', tree', kinds, base, op.app)
    requires forall q: nat :: USER_BEGIN <= q < VPN_COUNT ==> View(ram', tree', e.app, q) == View(ram, tree, e.app, q)
    ensures Stepped(op, e, ram, tree, kinds, tasks, files, ram', tree', kinds, tasks, base, log)
  {
    hide OnlySpace, View, AppAgrees;
    if Agrees(ram, tree, kinds, tasks, files, log) {
      KnownAfter(log, e);
      if Known(log, e.app) {
        KnownThere(ram, tree, kinds, tasks, files, log, e.app);
        RefusedAgrees(ram, tree, kinds, tasks, ram', tree', kinds, log, e);
      }
      OthersAgree(ram, tree, kinds, tasks, files, ram', tree', kinds, tasks, base, log, e);
    }
  }

  lemma KnownThere(ram: Ram, tree: Tree, kinds: Kinds, tasks: map<nat, TaskMemory>, files: Files, log: seq<Event>, app: nat)
    requires Agrees(ram, tree, kinds, tasks, files, log) && Known(log, app)
    ensures app in kinds && AppAgrees(ram, tree, kinds, tasks, log, app)
  {}

  lemma SkipStepped(op: Operation, ram: Ram, tree: Tree, kinds: Kinds, tasks: map<nat, TaskMemory>, files: Files, base: set<nat>, log: seq<Event>)
    ensures Stepped(op, Refused(op.app), ram, tree, kinds, tasks, files, ram, tree, kinds, tasks, base, log)
  {
    hide OnlySpace, View, Stepped;
    OnlySpaceRefl(ram, tree, kinds, base, op.app);
    RefusedStepped(op, Refused(op.app), ram, tree, kinds, tasks, files, ram, tree, base, log);
  }

  /** The end of a life: what the log says of it is nothing. */
  lemma UnknownStepped(op: Operation, e: Event, ram: Ram, tree: Tree, kinds: Kinds, tasks: map<nat, TaskMemory>, files: Files,
                       ram': Ram, tree': Tree, kinds': Kinds, tasks': map<nat, TaskMemory>, base: set<nat>, log: seq<Event>)
    requires (e.Exited? || e.Broke?) && Outcome(op, e) && OnlySpace(ram, tree, kinds, ram', tree', kinds', base, op.app)
    requires forall r :: r != e.app ==> (r in tasks' <==> r in tasks) && (r in tasks' ==> tasks'[r] == tasks[r])
    ensures Stepped(op, e, ram, tree, kinds, tasks, files, ram', tree', kinds', tasks', base, log)
  {
    hide OnlySpace, View, AppAgrees;
    KnownAfter(log, e);
    if Agrees(ram, tree, kinds, tasks, files, log) {
      OthersAgree(ram, tree, kinds, tasks, files, ram', tree', kinds', tasks', base, log, e);
    }
  }

  lemma AreasStepped(op: Operation, e: Event, ram: Ram, tree: Tree, kinds: Kinds, tasks: map<nat, TaskMemory>, files: Files, tasks': map<nat, TaskMemory>,
                     base: set<nat>, log: seq<Event>)
    requires (e.Grew? || e.Mapped?) && Outcome(op, e) && op.app in tasks && op.app in tasks'
    requires forall r :: r != e.app ==> (r in tasks' <==> r in tasks) && (r in tasks' ==> tasks'[r] == tasks[r])
    requires e.Grew? ==> tasks'[e.app] == tasks[e.app].(dpagingEnd := tasks[e.app].dpagingEnd + 4096 * e.pages)
    requires e.Mapped? ==> var size := |Content(files, e.file)|;
      size <= tasks[e.app].fileMapEnd && tasks'[e.app] == WithFile(tasks[e.app], e.file, size)
    ensures Stepped(op, e, ram, tree, kinds, tasks, files, ram, tree, kinds, tasks', base, log)
  {
    hide OnlySpace, View, AppAgrees;
    OnlySpaceRefl(ram, tree, kinds, base, op.app);
    KnownAfter(log, e);
    if Agrees(ram, tree, kinds, tasks, files, log) {
      if Known(log, e.app) {
        AreasAgree(ram, tree, kinds, tasks, tasks', files, log, e);
      }
      OthersAgree(ram, tree, kinds, tasks, files, ram, tree, kinds, tasks', base, log, e);
    }
  }

  /** A file was written. */
  lemma WrittenStepped(op: Operation, e: Event, ram: Ram, tree: Tree, kinds: Kinds, tasks: map<nat, TaskMemory>, files: Files,
                       base: set<nat>, log: seq<Event>)
    requires e.Written? && Outcome(op, e)
    ensures Stepped(op, e, ram, tree, kinds, tasks, files, ram, tree, kinds, tasks, base, log)
  {
    hide OnlySpace, View;
    OnlySpaceRefl(ram, tree, kinds, base, op.app);
    if Agrees(ram, tree, kinds, tasks, files, log) {
      KnownAfter(log, e);
      if Known(log, e.app) {
        KnownThere(ram, tree, kinds, tasks, files, log, e.app);
        WrittenAgrees(ram, tree, kinds, tasks, log, e);
      }
      OthersAgree(ram, tree, kinds, tasks, files, ram, tree, kinds, tasks, base, log, e);
    }
  }

  lemma WrittenAgrees(ram: Ram, tree: Tree, kinds: Kinds, tasks: map<nat, TaskMemory>, log: seq<Event>, e: Event)
    requires e.Written? && AppAgrees(ram, tree, kinds, tasks, log, e.app)
    ensures AppAgrees(ram, tree, kinds, tasks, log + [e], e.app)
  {
    hide View;
    assert (log + [e])[..|log|] == log;
    forall q: nat | USER_BEGIN <= q < VPN_COUNT ensures PageAgrees(ram, tree, log + [e], e.app, q) {
      assert PageAgrees(ram, tree, log, e.app, q);
    }
  }

  lemma LoadStepped(op: Operation, ram: Ram, tree: Tree, kinds: Kinds, tasks: map<nat, TaskMemory>, files: Files,
                    ram': Ram, tree': Tree, kinds': Kinds, base: set<nat>, log: seq<Event>)
    requires op.Load? && op.app in kinds' && op.app !in tasks && ImageLoaded(ram', tree', op.app, op.segments)
    requires OnlySpace(ram, tree, kinds, ram', tree', kinds', base, op.app)
    ensures Stepped(op, Loaded(op.app, op.segments), ram, tree, kinds, tasks, files, ram', tree', kinds', tasks, base, log)
  {
    hide OnlySpace, View, AppAgrees, ImageLoaded;
    var e := Loaded(op.app, op.segments);
    LoadedAgrees(ram', tree', kinds', tasks, log, e);
    if Agrees(ram, tree, kinds, tasks, files, log) {
      OthersAgree(ram, tree, kinds, tasks, files, ram', tree', kinds', tasks, base, log, e);
    }
  }

  lemma LaunchStepped(op: Operation, ram: Ram, tree: Tree, kinds: Kinds, tasks: map<nat, TaskMemory>, files: Files,
                      ram': Ram, tree': Tree, kinds': Kinds, tasks': map<nat, TaskMemory>, cr3: nat, base: set<nat>, log: seq<Event>)
    requires op.Launch? && op.app in kinds' && op.app in tasks' && OnlySpace(ram, tree, kinds, ram', tree', kinds', base, op.app)
    requires StartedFrom(ram, tree, ram', tree', op.app, op.template) && tasks'[op.app] == FirstAreas(op.vaddrEnd).(cr3 := cr3)
    requires forall r :: r != op.app ==> (r in tasks' <==> r in tasks) && (r in tasks' ==> tasks'[r] == tasks[r])
    ensures Stepped(op, Launched(op.app, op.template, op.vaddrEnd), ram, tree, kinds, tasks, files, ram', tree', kinds', tasks', base, log)
  {
    hide OnlySpace, View, AppAgrees, StartedFrom;
    var e := Launched(op.app, op.template, op.vaddrEnd);
    KnownAfter(log, e);
    if Agrees(ram, tree, kinds, tasks, files, log) {
      if Known(log, op.template) {
        KnownThere(ram, tree, kinds, tasks, files, log, op.template);
        LaunchedAgrees(ram, tree, kinds, tasks, ram', tree', kinds', tasks', log, e, cr3);
      }
      OthersAgree(ram, tree, kinds, tasks, files, ram', tree', kinds', tasks', base, log, e);
    }
  }

  lemma TaskIsThere(ram: Ram, tree: Tree, kinds: Kinds, base: set<nat>, tasks: map<nat, TaskMemory>,
                    appLoads: map<nat, nat>, cr3: nat, kernelRoot: nat, s: nat)
    requires RootsOk(ram, tree, kinds, base, tasks, appLoads, cr3, kernelRoot)
    ensures s in tasks ==> s in kinds && s !in appLoads
    ensures s !in kinds ==> s !in tasks && s !in appLoads
  {
    hide AreasOk;
    if s in tasks { TaskIsNoLoad(ram, tree, kinds, base, tasks, appLoads, cr3, kernelRoot, s); }
    if s !in kinds { UnknownTask(ram, tree, kinds, base, tasks, appLoads, cr3, kernelRoot, s); }
  }

  /** A system call's store has reached the image's own page, and so all that share it. */
  ghost predicate Spoils(op: Operation, e: Event, ram: Ram, tree: Tree, ram': Ram, tree': Tree) {
    && op.Fill? && e == Spoiled(op.app, op.causal, op.k, op.w)
    && WouldSpoil(ram, tree, op.app, op.causal / 4096, op.k, op.w) && !OthersSeeTheSame(ram, tree, ram', tree', op.app)
  }

  /** A user-mode access, or a system call's store. The latter spoils the image if and only if
      the page is shared and the word is not there already. */
  method AccessStep(m: Machine, op: Operation, ghost log: seq<Event>) returns (e: Event)
    requires Ready(m) && OperationOk(op) && (op.Store? || op.Read? || op.Fill?)
    modifies m`ram, m`tree, m`cr3, m.memoryManager`used, m.memoryManager.allocMap
    ensures Ready(m)
    ensures if e.Spoiled? then Spoils(op, e, old(m.ram), old(m.tree), m.ram, m.tree)
      else Stepped(op, e, old(m.ram), old(m.tree), old(m.kinds), old(m.tasks), old(m.files), m.ram, m.tree, m.kinds, m.tasks, m.base, log)
    ensures op.Fill? && op.app in old(m.tasks) && WouldSpoil(old(m.ram), old(m.tree), op.app, op.causal / 4096, op.k, op.w) ==> e.Spoiled?
    ensures Fair(op, e, old(m.ram), old(m.tree), old(m.tasks), old(m.files), m.Full()) && !e.Written?
  {
    hide Machine.Valid, Separated, OnlySpace, RootsOk, Leaf, View, Served, ImagesClear, Stepped, Shared, Machine.Full, OthersSeeTheSame, WouldSpoil;
    ghost var ram0, tree0, kinds0, tasks0, files0 := m.ram, m.tree, m.kinds, m.tasks, m.files;
    e := Refused(op.app);
    SkipStepped(op, m.ram, m.tree, m.kinds, m.tasks, m.files, m.base, log);
    TaskIsThere(m.ram, m.tree, m.kinds, m.base, m.tasks, m.appLoads, m.cr3, m.kernelRoot, op.app);
    if op.app !in m.tasks {
      return;
    }
    match op {
      case Store(s, causal, k, w) =>
        var ok := m.StoreWord(s, causal, k, w);
        if ok { e := Stored(s, causal, k, w); }
      case Read(s, causal, k) =>
        var ok, w := m.ReadWord(s, causal, k);
        if ok { e := Fetched(s, causal, k, w); }
      case Fill(s, causal, k, w) =>
        var spoils := m.Spoils(s, causal, k, w);
        var ok := m.KernelStoreWord(s, causal, k, w);
        if spoils {
          e := Spoiled(s, causal, k, w);
          SpoilingSeen(ram0, tree0, s, causal / 4096, k, w, m.tasks[s], m.files);
          ImagesSpoiled(ram0, tree0, m.ram, m.appLoads);
          return;
        }
        if ok { e := Stored(s, causal, k, w); }
    }
    ImagesStayClear(ram0, tree0, kinds0, m.ram, m.tree, m.kinds, m.base, op.app, m.appLoads, m.appLoads);
    if e.Refused? {
      RefusedStepped(op, e, ram0, tree0, kinds0, tasks0, files0, m.ram, m.tree, m.base, log);
    } else {
      TouchStepped(op, e, ram0, tree0, kinds0, tasks0, files0, m.ram, m.tree, m.base, log);
    }
  }

  lemma SpoilingSeen(ram: Ram, tree: Tree, s: nat, q: nat, k: Index, w: Word, t: TaskMemory, files: Files)
    requires WouldSpoil(ram, tree, s, q, k, w)
    ensures Shared(ram, tree, s, q)
    ensures PageShown(ram, tree, s, t, files, q).Some? && PageShown(ram, tree, s, t, files, q).value[k] != w
  {
    hide View, Shared;
  }

  /** A store changes no entry. */
  lemma ImagesSpoiled(ram: Ram, tree: Tree, ram': Ram, appLoads: map<nat, nat>)
    requires ImagesClear(ram, tree, appLoads) && LeavesKept(ram, tree, ram', tree)
    ensures ImagesClear(ram', tree, appLoads)
  {
    hide Leaf;
    forall t | t in appLoads ensures ClearFrom(ram', tree, t, STACK_BEGIN) {
      assert ClearFrom(ram, tree, t, STACK_BEGIN);
      forall q: nat | STACK_BEGIN <= q < VPN_COUNT ensures Leaf(ram', tree, t, q) == None {
        LeafKept(ram, tree, ram', tree, t, q);
      }
    }
  }

  /** Loading, launching, growing, mapping, writing a file, exiting. */
  method LifeStep(m: Machine, op: Operation, ghost log: seq<Event>) returns (e: Event)
    requires Ready(m) && OperationOk(op) && !(op.Store? || op.Read? || op.Fill?)
    modifies m`ram, m`tree, m`kinds, m`cr3, m`tasks, m`files, m`appLoads, m.memoryManager`used, m.memoryManager.allocMap
    ensures Ready(m)
    ensures Stepped(op, e, old(m.ram), old(m.tree), old(m.kinds), old(m.tasks), old(m.files), m.ram, m.tree, m.kinds, m.tasks, m.base, log)
    ensures m.files == FilesAfter(old(m.files), e) && !e.Spoiled?
  {
    hide Machine.Valid, Separated, OnlySpace, RootsOk, Leaf, View, Served, ImagesClear, Stepped, StartedFrom, ImageLoaded, ClearFrom,
      ImageNodes, StartNodes, Machine.Full;
    ghost var ram0, tree0, kinds0, tasks0, files0, loads0 := m.ram, m.tree, m.kinds, m.tasks, m.files, m.appLoads;
    e := Refused(op.app);
    SkipStepped(op, m.ram, m.tree, m.kinds, m.tasks, m.files, m.base, log);
    TaskIsThere(m.ram, m.tree, m.kinds, m.base, m.tasks, m.appLoads, m.cr3, m.kernelRoot, op.app);
    match op
    case Load(t, segments) =>
      if t !in m.kinds {
        var err := m.LoadImage(t, segments);
        if err == Success {
          e := Loaded(t, segments);
          IsThere(m, t);
          ImageIsClearIn(m, t, segments);
          LoadStepped(op, ram0, tree0, kinds0, tasks0, files0, m.ram, m.tree, m.kinds, m.base, log);
        } else {
          e := Broke(t);
          UnknownStepped(op, e, ram0, tree0, kinds0, tasks0, files0, m.ram, m.tree, m.kinds, m.tasks, m.base, log);
        }
        ImagesStayClear(ram0, tree0, kinds0, m.ram, m.tree, m.kinds, m.base, op.app, loads0, m.appLoads);
      }
    case Launch(d, t, vaddrEnd) =>
      if d !in m.kinds && t in m.appLoads {
        ImageClear(m.ram, m.tree, m.appLoads, t);
        var err := m.LaunchApp(d, t, vaddrEnd);
        if err == Success {
          e := Launched(d, t, vaddrEnd);
          TaskIsThere(m.ram, m.tree, m.kinds, m.base, m.tasks, m.appLoads, m.cr3, m.kernelRoot, d);
          LaunchStepped(op, ram0, tree0, kinds0, tasks0, files0, m.ram, m.tree, m.kinds, m.tasks, m.cr3, m.base, log);
        } else {
          e := Broke(d);
          UnknownStepped(op, e, ram0, tree0, kinds0, tasks0, files0, m.ram, m.tree, m.kinds, m.tasks, m.base, log);
        }
        ImagesStayClear(ram0, tree0, kinds0, m.ram, m.tree, m.kinds, m.base, op.app, loads0, m.appLoads);
      }
    case Grow(s, n) =>
      if s in m.tasks {
        var begin := m.DemandPages(s, n);
        e := Grew(s, n);
        AreasStepped(op, e, ram0, tree0, kinds0, tasks0, files0, m.tasks, m.base, log);
      }
    case Map(s, file) =>
      if s in m.tasks && |Content(m.files, file)| <= m.tasks[s].fileMapEnd {
        var begin := m.MapFile(s, file);
        e := Mapped(s, file);
        AreasStepped(op, e, ram0, tree0, kinds0, tasks0, files0, m.tasks, m.base, log);
      }
    case Write(s, file, content) =>
      if Keeps(m.tasks, m.files, file, content) {
        m.WriteFile(file, content);
        e := Written(s, file, content);
        WrittenStepped(op, e, ram0, tree0, kinds0, tasks0, files0, m.base, log);
      }
    case Exit(s) =>
      if s in m.tasks {
        var err := m.ExitApp(s);
        e := Exited(s);
        ImagesStayClear(ram0, tree0, kinds0, m.ram, m.tree, m.kinds, m.base, op.app, loads0, m.appLoads);
        UnknownStepped(op, e, ram0, tree0, kinds0, tasks0, files0, m.ram, m.tree, m.kinds, m.tasks, m.base, log);
      }
  }

  lemma ImageClear(ram: Ram, tree: Tree, appLoads: map<nat, nat>, t: nat)
    requires ImagesClear(ram, tree, appLoads) && t in appLoads
    ensures ClearFrom(ram, tree, t, STACK_BEGIN)
  {}

  lemma IsThere(m: Machine, t: nat)
    requires m.Inv() && t in m.appLoads
    ensures t in m.kinds && t !in m.tasks
  {
    hide Machine.Valid, Separated, RootsOk;
    LoadOf(m.ram, m.tree, m.kinds, m.base, m.tasks, m.appLoads, m.cr3, m.kernelRoot, t);
    TaskIsThere(m.ram, m.tree, m.kinds, m.base, m.tasks, m.appLoads, m.cr3, m.kernelRoot, t);
  }

  lemma ImageIsClearIn(m: Machine, t: nat, segments: seq<Segment>)
    requires m.Inv() && ImageLoaded(m.ram, m.tree, t, segments) && BelowStack(segments)
    ensures ClearFrom(m.ram, m.tree, t, STACK_BEGIN)
  {
    hide Separated, RootsOk, Shape, ImageLoaded, ClearFrom;
    ImageIsClear(m.ram, m.tree, m.kinds, t, segments);
  }

  /** One step of the system on behalf of application or image op.app. A step that makes no
      sense in the current state (an unknown application, say) is refused. */
  method Step(m: Machine, op: Operation, ghost log: seq<Event>) returns (e: Event)
    requires Ready(m) && OperationOk(op)
    modifies m`ram, m`tree, m`kinds, m`cr3, m`tasks, m`files, m`appLoads, m.memoryManager`used, m.memoryManager.allocMap
    ensures Ready(m)
    ensures if e.Spoiled? then Spoils(op, e, old(m.ram), old(m.tree), m.ram, m.tree)
      else Stepped(op, e, old(m.ram), old(m.tree), old(m.kinds), old(m.tasks), old(m.files), m.ram, m.tree, m.kinds, m.tasks, m.base, log)
    ensures m.files == FilesAfter(old(m.files), e)
    ensures op.Fill? && op.app in old(m.tasks) && WouldSpoil(old(m.ram), old(m.tree), op.app, op.causal / 4096, op.k, op.w) ==> e.Spoiled?
    ensures Fair(op, e, old(m.ram), old(m.tree), old(m.tasks), old(m.files), m.Full())
  {
    hide Machine.Inv, ImagesClear, Stepped, Machine.Full, WouldSpoil, Spoils;
    if op.Store? || op.Read? || op.Fill? {
      e := AccessStep(m, op, log);
    } else {
      e := LifeStep(m, op, log);
    }
  }

  /** No system call has written to a shared page. */
  predicate Unspoiled(log: seq<Event>) {
    forall i :: 0 <= i < |log| ==> !log[i].Spoiled?
  }

  /** Any run, in any interleaving. As long as no system call has written to a shared page, an
      application that the run started sees exactly what the log says: every read gives the word
      last stored there or else the image's, a zero or the file's (FlatHistory); an address space
      on whose behalf no step was taken sees the memory it saw before; and when every application
      of the run has come and gone, the allocator's bitmap is back where it was. */
  method Run(m: Machine, ops: seq<Operation>, ghost before: seq<Event>) returns (log: seq<Event>)
    requires Ready(m) && forall op :: op in ops ==> OperationOk(op)
    requires Agrees(m.ram, m.tree, m.kinds, m.tasks, m.files, before)
    modifies m`ram, m`tree, m`kinds, m`cr3, m`tasks, m`files, m`appLoads, m.memoryManager`used, m.memoryManager.allocMap
    ensures Ready(m) && |log| == |ops| && forall i :: 0 <= i < |ops| ==> Outcome(ops[i], log[i])
    ensures Unspoiled(log) ==> Agrees(m.ram, m.tree, m.kinds, m.tasks, m.files, before + log)
    ensures forall i: nat :: i < |log| && Unspoiled(log[..i]) ==> TruthfulAt(before, log, i)
    ensures Unspoiled(log) ==> forall r: nat :: (forall op :: op in ops ==> op.app != r) ==>
      SpaceKept(old(m.ram), old(m.tree), old(m.kinds), m.ram, m.tree, m.kinds, r)
    ensures Unspoiled(log) && (forall op :: op in ops ==> op.app !in old(m.kinds) && op.app !in m.kinds) ==>
      m.memoryManager.used == old(m.memoryManager.used)
  {
    hide Separated, OnlySpace, Machine.Roots, SpaceKept, Machine.Allocator, Shape, ImagesClear, Agrees, Truthful, Machine.Full, WouldSpoil,
      OthersSeeTheSame, Unspoiled;
    log := [];
    assert before + log == before;
    KeptAtFirst(m.ram, m.tree, m.kinds);
    for i := 0 to |ops|
      invariant Ready(m) && |log| == i && forall j :: 0 <= j < i ==> Outcome(ops[j], log[j])
      invariant Unspoiled(log) ==> Agrees(m.ram, m.tree, m.kinds, m.tasks, m.files, before + log)
      invariant forall j: nat :: j < i && Unspoiled(log[..j]) ==> TruthfulAt(before, log, j)
      invariant Unspoiled(log) ==> forall r: nat :: (forall j :: 0 <= j < i ==> ops[j].app != r) ==>
        SpaceKept(old(m.ram), old(m.tree), old(m.kinds), m.ram, m.tree, m.kinds, r)
    {
      ghost var ram1, tree1, kinds1 := m.ram, m.tree, m.kinds;
      ghost var all := before + log;
      var e := Step(m, ops[i], all);
      SpoiledOnce(log, e);
      SpoiledTells(all, e);
      TruthfulNext(before, log, e);
      assert before + (log + [e]) == all + [e];
      log := log + [e];
      if Unspoiled(log) {
        forall r: nat | forall j :: 0 <= j < i + 1 ==> ops[j].app != r
          ensures SpaceKept(old(m.ram), old(m.tree), old(m.kinds), m.ram, m.tree, m.kinds, r)
        {
          assert ops[i].app != r;
          KeptByStep(old(m.ram), old(m.tree), old(m.kinds), ram1, tree1, kinds1, m.ram, m.tree, m.kinds, m.base, ops[i].app, r);
        }
      }
    }
    if Unspoiled(log) && forall op :: op in ops ==> op.app !in old(m.kinds) && op.app !in m.kinds {
      AllGone(old(m.ram), old(m.tree), old(m.kinds), m.ram, m.tree, m.kinds, set op | op in ops :: op.app);
    }
  }

  lemma SpoiledOnce(log: seq<Event>, e: Event)
    ensures Unspoiled(log + [e]) <==> Unspoiled(log) && !e.Spoiled?
  {
    assert forall i :: 0 <= i < |log| ==> (log + [e])[i] == log[i];
    assert (log + [e])[|log|] == e;
  }

  lemma SpoiledTells(log: seq<Event>, e: Event)
    ensures e.Spoiled? ==> Truthful(log, e)
  {}

  /** Step i of a run, seen with all that happened before. */
  ghost predicate TruthfulAt(before: seq<Event>, log: seq<Event>, i: nat)
    requires i < |log|
  {
    Known(before + log[..i], log[i].app) ==> Truthful(before + log[..i], log[i])
  }

  lemma TruthfulNext(before: seq<Event>, log: seq<Event>, e: Event)
    requires Unspoiled(log) && Known(before + log, e.app) ==> Truthful(before + log, e)
    requires forall j: nat :: j < |log| && Unspoiled(log[..j]) ==> TruthfulAt(before, log, j)
    ensures forall j: nat :: j < |log| + 1 && Unspoiled((log + [e])[..j]) ==> TruthfulAt(before, log + [e], j)
  {
    hide Truthful, Known, Unspoiled;
    var now := log + [e];
    forall j: nat | j < |now| && Unspoiled(now[..j]) ensures TruthfulAt(before, now, j) {
      if j < |log| {
        assert now[..j] == log[..j] && TruthfulAt(before, log, j);
      } else {
        assert now[..j] == log;
      }
    }
  }

  // ---- What the applications of a run read

  /** The log of a run from its beginning: all it reads is true. */
  ghost predicate TrueLog(log: seq<Event>) {
    forall i: nat :: i < |log| ==> TruthfulAt([], log, i)
  }

  lemma {:induction false} KnownStays(log: seq<Event>, i: nat, j: nat, app: nat)
    requires i <= j <= |log| && Known(log[..i], app) && forall x :: i <= x < j ==> !Restarts(log[x], app)
    ensures Known(log[..j], app)
    decreases j
  {
    if i < j {
      KnownStays(log, i, j - 1, app);
      assert log[..j][..j - 1] == log[..j - 1] && log[..j][j - 1] == log[j - 1];
    }
  }

  lemma TrueAt(log: seq<Event>, i: nat, j: nat, app: nat)
    requires TrueLog(log) && i <= j < |log| && log[j].app == app && Known(log[..i], app)
    requires forall x :: i <= x < j ==> !Restarts(log[x], app)
    ensures Truthful(log[..j], log[j])
  {
    hide Known, Truthful;
    KnownStays(log, i, j, app);
    assert [] + log[..j] == log[..j];
    assert TruthfulAt([], log, j);
  }

  lemma FoundInRun(log: seq<Event>, i: nat, r: nat, app: nat)
    requires TrueLog(log) && i <= r <= |log| && Known(log[..i], app) && forall x :: i <= x < r ==> !Restarts(log[x], app)
    ensures Found(log[..r], i, app)
  {
    hide Known, Shown;
    forall j: nat | i <= j < r && log[..r][j].app == app ensures TouchFinds(log[..r], j) {
      assert log[..r][..j] == log[..j];
      TrueAt(log, i, j, app);
    }
  }

  /** A word read back is the one stored last. */
  lemma ReadsBack(log: seq<Event>, i: nat, r: nat)
    requires TrueLog(log) && i < r < |log| && log[i].Stored? && log[r].Fetched? && log[r].app == log[i].app
    requires log[r].causal / 4096 == log[i].causal / 4096 && log[r].k == log[i].k
    requires Known(log[..i], log[i].app) && Undisturbed(log[..r], i + 1, log[i].app, log[i].causal / 4096, log[i].k)
    ensures log[r].w == log[i].w
  {
    hide Known, Shown;
    var app := log[i].app;
    assert forall x :: i <= x < r ==> log[..r][x] == log[x];
    FoundInRun(log, i, r, app);
    FoundMore(log[..r], i, app);
    LastStore(log[..r], i, app, log[i].causal, log[i].k, log[i].w);
    TrueAt(log, i, r, app);
  }

  lemma FoundMore(log: seq<Event>, i: nat, app: nat)
    requires Found(log, i, app) && i < |log| && log[i].app == app
    ensures Found(log, i + 1, app) && TouchFinds(log, i)
  {}

  /** A word read from a mapped file that was not stored to is the file's, unless something was
      there when the file was mapped or the heap had grown over the page when it was first
      touched. */
  lemma ReadsFile(log: seq<Event>, i: nat, r: nat, q: nat)
    requires TrueLog(log) && i < r < |log| && log[r].Fetched? && log[r].app == log[i].app && log[r].causal / 4096 == q
    requires InRegion(log, i, log[i].app, q) && Known(log[..i], log[i].app)
    requires Undisturbed(log[..r], i, log[i].app, q, log[r].k)
    ensures log[r].w ==
      if Present(log[..i], log[i].app, q).Some? then Present(log[..i], log[i].app, q).value[log[r].k]
      else if Swallowed(log[..r], i, log[i].app, q) then ZERO_WORD
      else FileWord(log, i, FirstTouch(log[..r], i, log[i].app, q), q, log[r].k)
  {
    hide Known, Shown, Present, FilePage;
    var app, k := log[i].app, log[r].k;
    assert forall x :: i <= x < r ==> log[..r][x] == log[x];
    assert log[..r][..i] == log[..i];
    FoundInRun(log, i, r, app);
    MappedWord(log[..r], i, app, q, k);
    SameFileWord(log, r, i, FirstTouch(log[..r], i, app, q), q, k);
    TrueAt(log, i, r, app);
  }

  lemma SameFileWord(log: seq<Event>, r: nat, i: nat, j: nat, q: nat, k: Index)
    requires i < r <= |log| && j <= r && InRegion(log, i, log[i].app, q)
    ensures InRegion(log[..r], i, log[i].app, q) && log[..r][i] == log[i] && FileWord(log[..r], i, j, q, k) == FileWord(log, i, j, q, k)
  {
    hide FilePage, Areas, Contents;
    assert log[..r][..i] == log[..i] && log[..r][..j] == log[..j];
  }

  /** In the heap it is a zero, as the heap begins behind the image. */
  lemma ReadsHeap(log: seq<Event>, t: nat, i: nat, r: nat, q: nat)
    requires TrueLog(log) && i < r < |log| && log[i].Launched? && log[r].Fetched? && log[r].app == log[i].app && log[r].causal / 4096 == q
    requires LoadedAt(log, t, i, log[i].template) && EndsBy(log[t].segments, log[i].vaddrEnd)
    requires Known(log[..i + 1], log[i].app) && Undisturbed(log[..r], i + 1, log[i].app, q, log[r].k)
    requires q < STACK_BEGIN && InHeap(Areas(log[..FirstTouch(log[..r], i + 1, log[i].app, q)], log[i].app), q * 4096)
    ensures log[r].w == ZERO_WORD
  {
    hide Known, Shown, Areas, EndsBy, InHeap;
    var app, k := log[i].app, log[r].k;
    assert forall x :: 0 <= x < r ==> log[..r][x] == log[x];
    FoundInRun(log, i + 1, r, app);
    var j := FirstTouch(log[..r], i + 1, app, q);
    assert log[..r][..j] == log[..j];
    HeapWord(log[..r], t, i, q, k);
    TrueAt(log, i + 1, r, app);
  }

  /** A word that the application never stored to is its image's, a zero or a file's. */
  lemma ReadsStart(log: seq<Event>, i: nat, r: nat, q: nat)
    requires TrueLog(log) && i < r < |log| && log[i].Launched? && log[r].Fetched? && log[r].app == log[i].app && log[r].causal / 4096 == q
    requires Known(log[..i + 1], log[i].app) && Undisturbed(log[..r], i + 1, log[i].app, q, log[r].k)
    ensures var image := Present(log[..i], log[i].template, q);
      if image.Some? then log[r].w == image.value[log[r].k]
      else if STACK_BEGIN <= q < VPN_COUNT then log[r].w == ZERO_WORD
      else
        var j := FirstTouch(log[..r], i + 1, log[i].app, q);
        var served := Served(Areas(log[..j], log[i].app), Contents(log[..j]), q);
        served.Some? && log[r].w == served.value[log[r].k]
  {
    hide Known, Shown, Present, Served, Areas;
    var app, k := log[i].app, log[r].k;
    assert forall x :: i <= x < r ==> log[..r][x] == log[x];
    assert log[..r][..i] == log[..i];
    FoundInRun(log, i + 1, r, app);
    LaunchedWord(log[..r], i, app, q, k);
    TrueAt(log, i + 1, r, app);
    var j := FirstTouch(log[..r], i + 1, app, q);
    assert log[..r][..j] == log[..j];
  }
}
