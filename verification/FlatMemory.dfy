/** What an application observes of its memory: a plain array of pages. What is mapped where,
    shared with whom and loaded when does not show; a log of what happened determines it. */
module FlatMemory {
  import opened Common
  import opened PageMapEntry

  /** The argument page is the last page of the address space; 16 stack pages lie below it. */
  const ARGS_PAGE: nat := VPN_COUNT - 1
  const STACK_PAGES: nat := 16
  const STACK_BEGIN: nat := ARGS_PAGE - STACK_PAGES

  /** What the files hold, by number. */
  type Files = map<nat, seq<Byte>>

  function Content(files: Files, file: nat): seq<Byte> {
    if file in files then files[file] else []
  }

  /** A file mapped at [vaddrBegin, vaddrEnd). Addresses are the low 48 bits. */
  datatype FileMapping = FileMapping(file: nat, vaddrBegin: nat, vaddrEnd: nat) {
    predicate Contains(causal: nat) {
      vaddrBegin <= causal < vaddrEnd
    }
  }

  /** What a task remembers about its address space. */
  datatype TaskMemory =
    TaskMemory(cr3: nat, dpagingBegin: nat, dpagingEnd: nat, fileMapEnd: nat, fileMaps: seq<FileMapping>)

  function ZeroFrame(): (frame: Frame)
    ensures Zeroed(frame)
  {
    seq(ENTRIES, _ => ZERO_WORD)
  }

  lemma ZeroedIs(f: Frame)
    ensures Zeroed(f) <==> f == ZeroFrame()
  {}

  // ---- Images

  /** A loadable segment: its pages, and the words that its file contents put there. */
  datatype Segment = Segment(addr: LinearAddress4Level, pages: nat, words: seq<(nat, Index, Word)>)

  /** The segment lies in the upper half, and its words in the segment. */
  ghost predicate SegmentOk(seg: Segment) {
    var v := seg.addr.Vpn();
    && USER_BEGIN <= v && v + seg.pages <= VPN_COUNT
    && forall j :: 0 <= j < |seg.words| ==> v <= seg.words[j].0 < v + seg.pages
  }

  ghost predicate BelowStack(segments: seq<Segment>) {
    forall seg :: seg in segments ==> seg.addr.Vpn() + seg.pages <= STACK_BEGIN
  }

  /** What a page comes to hold when the words meant for it are stored in order. */
  function WordsAt(frame: Frame, words: seq<(nat, Index, Word)>, q: nat): Frame {
    if words == [] then frame
    else
      var before: Frame := WordsAt(frame, words[..|words| - 1], q);
      var last := words[|words| - 1];
      if last.0 == q then before[last.1 := last.2] else before
  }

  /** The last word meant for a place is the one that it holds. */
  lemma {:induction false} LastWordStays(frame: Frame, words: seq<(nat, Index, Word)>, q: nat, j: nat)
    requires j < |words| && words[j].0 == q
    requires forall i :: j < i < |words| ==> !(words[i].0 == q && words[i].1 == words[j].1)
    ensures WordsAt(frame, words, q)[words[j].1] == words[j].2
  {
    if j < |words| - 1 {
      LastWordStays(frame, words[..|words| - 1], q, j);
    }
  }

  lemma {:induction false} NoWordKeeps(frame: Frame, words: seq<(nat, Index, Word)>, q: nat, k: Index)
    requires forall i :: 0 <= i < |words| ==> !(words[i].0 == q && words[i].1 == k)
    ensures WordsAt(frame, words, q)[k] == frame[k]
  {
    if words != [] {
      NoWordKeeps(frame, words[..|words| - 1], q, k);
    }
  }

  /** Page q after a segment was loaded over what was there: a page it adds starts zeroed. */
  function LoadedPage(before: Option<Frame>, v: nat, pages: nat, words: seq<(nat, Index, Word)>, q: nat): Option<Frame> {
    if v <= q < v + pages
    then Some(WordsAt(match before case Some(f) => f case None => ZeroFrame(), words, q))
    else before
  }

  /** Page q of the image that the segments describe. */
  ghost function ImagePage(segments: seq<Segment>, q: nat): Option<Frame> {
    if segments == [] then None
    else
      var seg := segments[|segments| - 1];
      LoadedPage(ImagePage(segments[..|segments| - 1], q), seg.addr.Vpn(), seg.pages, seg.words, q)
  }

  // ---- Pages that come when they are touched

  /** The heap is page-aligned; successive mappings are page-aligned, and each lies below the
      one before. */
  ghost predicate AreasOk(t: TaskMemory) {
    && t.dpagingBegin % 4096 == 0 && t.dpagingEnd % 4096 == 0 && t.fileMapEnd % 4096 == 0
    && (forall i :: 0 <= i < |t.fileMaps| ==> RegionOk(t.fileMaps[i]) && t.fileMapEnd <= t.fileMaps[i].vaddrBegin)
    && (forall i, j :: 0 <= i < j < |t.fileMaps| ==> t.fileMaps[j].vaddrEnd <= t.fileMaps[i].vaddrBegin)
  }

  ghost predicate RegionOk(m: FileMapping) {
    m.vaddrBegin % 4096 == 0 && m.vaddrEnd % 4096 == 0 && m.vaddrBegin <= m.vaddrEnd
  }

  predicate InHeap(t: TaskMemory, causal: nat) {
    t.dpagingBegin <= causal < t.dpagingEnd
  }

  /** The first mapping that contains an address. */
  function FirstMapping(maps: seq<FileMapping>, causal: nat): (r: Option<FileMapping>)
    ensures r.Some? ==> r.value in maps && r.value.Contains(causal)
    ensures r.None? ==> forall m :: m in maps ==> !m.Contains(causal)
  {
    if maps == [] then None
    else if maps[0].Contains(causal) then Some(maps[0])
    else FirstMapping(maps[1..], causal)
  }

  /** What a missing page comes up with: zeroes in the heap, and elsewhere the bytes of the
      file mapped there, as they are now. */
  function Served(t: TaskMemory, files: Files, q: nat): Option<Frame> {
    if InHeap(t, q * 4096) then Some(ZeroFrame())
    else
      match FirstMapping(t.fileMaps, q * 4096)
      case None => None
      case Some(m) => Some(FilePage(Content(files, m.file), q * 4096 - m.vaddrBegin))
  }

  /** A page is in a page-aligned range as a whole or not at all. */
  lemma WholePages(begin: nat, end: nat, causal: nat)
    requires begin % 4096 == 0 && end % 4096 == 0
    ensures begin <= causal < end <==> begin <= causal / 4096 * 4096 < end
  {
    var b, e, q := begin / 4096, end / 4096, causal / 4096;
    assert begin == 4096 * b && end == 4096 * e;
  }

  /** The fault handler looks at the address, not at its page: it makes no difference. */
  lemma {:induction false} SamePage(maps: seq<FileMapping>, causal: nat)
    requires forall m :: m in maps ==> RegionOk(m)
    ensures FirstMapping(maps, causal / 4096 * 4096) == FirstMapping(maps, causal)
  {
    if maps != [] {
      assert RegionOk(maps[0]);
      WholePages(maps[0].vaddrBegin, maps[0].vaddrEnd, causal);
      SamePage(maps[1..], causal);
    }
  }

  lemma ServedAt(t: TaskMemory, causal: nat)
    requires AreasOk(t)
    ensures InHeap(t, causal / 4096 * 4096) <==> InHeap(t, causal)
    ensures FirstMapping(t.fileMaps, causal / 4096 * 4096) == FirstMapping(t.fileMaps, causal)
    ensures FirstMapping(t.fileMaps, causal).Some? ==> FirstMapping(t.fileMaps, causal).value.vaddrBegin <= causal / 4096 * 4096
  {
    WholePages(t.dpagingBegin, t.dpagingEnd, causal);
    SamePage(t.fileMaps, causal);
  }

  // ---- What happened

  /** One step of a run, with its outcome. */
  datatype Event =
    | Loaded(app: nat, segments: seq<Segment>)
    | Launched(app: nat, template: nat, vaddrEnd: nat)
    | Stored(app: nat, causal: nat, k: Index, w: Word)
    | Fetched(app: nat, causal: nat, k: Index, w: Word)
    | Grew(app: nat, pages: nat)
    | Mapped(app: nat, file: nat)
    /** A file was written: this is what it holds now. */
    | Written(app: nat, file: nat, content: seq<Byte>)
    | Exited(app: nat)
    /** A system call's store reached a page that is shared: nothing is said from here on. */
    | Spoiled(app: nat, causal: nat, k: Index, w: Word)
    /** Nothing to see: skipped, or refused. */
    | Refused(app: nat)
    /** Memory ran out while an image was loaded or an application launched. */
    | Broke(app: nat)

  /** Whether app is an image or an application whose whole life is in the log. */
  predicate Known(log: seq<Event>, app: nat) {
    if log == [] then false
    else
      var front, e := log[..|log| - 1], log[|log| - 1];
      if e.app != app then Known(front, app)
      else if e.Loaded? then true
      else if e.Launched? then Known(front, e.template)
      else if e.Exited? || e.Broke? then false
      else Known(front, app)
  }

  /** The end of the file area, and the heap, when an application starts. */
  function FirstAreas(vaddrEnd: nat): TaskMemory {
    var heap := (vaddrEnd + 4095) / 4096 * 4096;
    TaskMemory(0, heap, heap, STACK_BEGIN * 4096, [])
  }

  /** An empty heap at the first page boundary not before the end of the image, and a file area
      whose end is sixteen pages and the argument page below the end of the address space. */
  predicate AreasStart(t: TaskMemory, vaddrEnd: nat) {
    && vaddrEnd <= t.dpagingBegin == t.dpagingEnd < vaddrEnd + 4096 && t.dpagingBegin % 4096 == 0
    && t.fileMaps == [] && t.fileMapEnd == 0x1_0000_0000_0000 - 4096 - 16 * 4096
  }

  lemma FirstAreasStart(vaddrEnd: nat, cr3: nat)
    ensures AreasStart(FirstAreas(vaddrEnd).(cr3 := cr3), vaddrEnd) && STACK_BEGIN * 4096 == FirstAreas(vaddrEnd).fileMapEnd
  {
    var n := (vaddrEnd + 4095) / 4096;
    assert 4096 * n <= vaddrEnd + 4095 < 4096 * n + 4096;
  }

  /** A file is mapped below everything mapped so far. */
  function WithFile(t: TaskMemory, file: nat, size: nat): TaskMemory
    requires size <= t.fileMapEnd
  {
    var begin := (t.fileMapEnd - size) / 4096 * 4096;
    t.(fileMapEnd := begin, fileMaps := t.fileMaps + [FileMapping(file, begin, t.fileMapEnd)])
  }

  /** What the files hold. */
  function Contents(log: seq<Event>): Files {
    if log == [] then map[]
    else
      var front, e := log[..|log| - 1], log[|log| - 1];
      if e.Written? then Contents(front)[e.file := e.content] else Contents(front)
  }

  /** Heap and mappings of an application. */
  function Areas(log: seq<Event>, app: nat): TaskMemory {
    if log == [] then TaskMemory(0, 0, 0, 0, [])
    else
      var front, e := log[..|log| - 1], log[|log| - 1];
      if e.app != app then Areas(front, app)
      else
        match e
        case Launched(_, _, vaddrEnd) => FirstAreas(vaddrEnd)
        case Grew(_, n) => Areas(front, app).(dpagingEnd := Areas(front, app).dpagingEnd + 4096 * n)
        case Mapped(_, file) =>
          var size := |Content(Contents(front), file)|;
          if size <= Areas(front, app).fileMapEnd then WithFile(Areas(front, app), file, size) else Areas(front, app)
        case Loaded(_, _) => TaskMemory(0, 0, 0, 0, [])
        case _ => Areas(front, app)
  }

  /** What page q of app holds once it has been touched. */
  ghost function Present(log: seq<Event>, app: nat, q: nat): Option<Frame>
    decreases |log|, 0
  {
    if log == [] then None
    else
      var front, e := log[..|log| - 1], log[|log| - 1];
      if e.app != app then Present(front, app, q)
      else
        match e
        case Loaded(_, segments) => ImagePage(segments, q)
        case Launched(_, t, _) =>
          if Present(front, t, q) == None && STACK_BEGIN <= q < VPN_COUNT then Some(ZeroFrame()) else Present(front, t, q)
        case Stored(_, causal, k, w) =>
          if causal / 4096 == q then Put(Shown(front, app, q), k, w) else Present(front, app, q)
        case Fetched(_, causal, _, _) => if causal / 4096 == q then Shown(front, app, q) else Present(front, app, q)
        case Exited(_) => None
        case Broke(_) => None
        case _ => Present(front, app, q)
  }

  /** What page q of app shows, touched or not. */
  ghost function Shown(log: seq<Event>, app: nat, q: nat): Option<Frame>
    decreases |log|, 1
  {
    var p := Present(log, app, q);
    if p.Some? then p else Served(Areas(log, app), Contents(log), q)
  }

  function Put(page: Option<Frame>, k: Index, w: Word): Option<Frame> {
    match page
    case None => None
    case Some(f) => Some(f[k := w])
  }
}
