/** Which word of a log an application reads: the last one it stored, and before that the
    image's, a zero or the file's. */
module FlatHistory {
  import opened Common
  import opened PageMapEntry
  import opened FlatMemory

  /** The application starts anew, or ends. */
  predicate Restarts(e: Event, app: nat) {
    e.app == app && (e.Loaded? || e.Launched? || e.Exited? || e.Broke?)
  }

  predicate Touches(e: Event, app: nat, q: nat) {
    e.app == app && (e.Stored? || e.Fetched?) && e.causal / 4096 == q
  }

  predicate StoresTo(e: Event, app: nat, q: nat, k: nat) {
    e.app == app && e.Stored? && e.causal / 4096 == q && e.k == k
  }

  /** From step i on the application lives and stores nothing to word k of page q. */
  predicate Undisturbed(log: seq<Event>, i: nat, app: nat, q: nat, k: nat) {
    forall j :: i <= j < |log| ==> !Restarts(log[j], app) && !StoresTo(log[j], app, q, k)
  }

  /** What touches a page finds it. */
  ghost predicate TouchFinds(log: seq<Event>, j: nat)
    requires j < |log|
  {
    log[j].Stored? || log[j].Fetched? ==> Shown(log[..j], log[j].app, log[j].causal / 4096).Some?
  }

  ghost predicate Found(log: seq<Event>, i: nat, app: nat) {
    forall j: nat :: i <= j < |log| && log[j].app == app ==> TouchFinds(log, j)
  }

  /** The first step from i on that touches page q; the log's length when there is none. */
  function FirstTouch(log: seq<Event>, i: nat, app: nat, q: nat): (j: nat)
    requires i <= |log|
    ensures i <= j <= |log|
    ensures forall x :: i <= x < j ==> !Touches(log[x], app, q)
    ensures j < |log| ==> Touches(log[j], app, q)
    decreases |log| - i
  {
    if i == |log| || Touches(log[i], app, q) then i else FirstTouch(log, i + 1, app, q)
  }

  lemma FirstTouchBefore(log: seq<Event>, i: nat, app: nat, q: nat)
    requires i < |log|
    ensures var front := log[..|log| - 1];
      FirstTouch(log, i, app, q) ==
      if FirstTouch(front, i, app, q) < |front| || Touches(log[|log| - 1], app, q) then FirstTouch(front, i, app, q) else |log|
  {
    var front := log[..|log| - 1];
    var a, b := FirstTouch(front, i, app, q), FirstTouch(log, i, app, q);
    assert forall x :: 0 <= x < |front| ==> front[x] == log[x];
  }

  lemma FrontPart(log: seq<Event>, i: nat, app: nat, q: nat, k: nat)
    requires i < |log| && Undisturbed(log, i, app, q, k) && Found(log, i, app)
    ensures var front := log[..|log| - 1];
      Undisturbed(front, i, app, q, k) && Found(front, i, app) && front[..i] == log[..i]
  {
    var front := log[..|log| - 1];
    hide Shown;
    forall j: nat | i <= j < |front| && front[j].app == app ensures TouchFinds(front, j) {
      assert front[..j] == log[..j] && TouchFinds(log, j);
    }
  }

  /** One step: a word that is there stays unless it is stored to, and a touched page keeps
      what it showed. */
  lemma WordStep(log: seq<Event>, app: nat, q: nat, k: Index)
    requires log != []
    requires var e := log[|log| - 1]; !Restarts(e, app) && !StoresTo(e, app, q, k)
    ensures var front := log[..|log| - 1];
      && (Present(front, app, q).Some? ==> Present(log, app, q).Some? && Present(log, app, q).value[k] == Present(front, app, q).value[k])
      && (Present(front, app, q).None? && !Touches(log[|log| - 1], app, q) ==> Present(log, app, q).None?)
      && (Touches(log[|log| - 1], app, q) && Shown(front, app, q).Some? ==>
            Present(log, app, q).Some? && Present(log, app, q).value[k] == Shown(front, app, q).value[k])
  {
    hide Served, Areas, ImagePage, Contents;
  }

  /** A word that is not stored to is what the page held, or what it came up with when it was
      first touched, or would come up with now. */
  lemma {:induction false} FirstWord(log: seq<Event>, i: nat, app: nat, q: nat, k: Index)
    requires i <= |log| && Undisturbed(log, i, app, q, k) && Found(log, i, app)
    ensures Present(log[..i], app, q).Some? ==>
      Present(log, app, q).Some? && Present(log, app, q).value[k] == Present(log[..i], app, q).value[k]
    ensures Present(log[..i], app, q).None? ==>
      var j := FirstTouch(log, i, app, q);
      var s := Served(Areas(log[..j], app), Contents(log[..j]), q);
      && (j < |log| ==> s.Some? && Present(log, app, q).Some?)
      && (j == |log| ==> Present(log, app, q).None?)
      && (Shown(log, app, q).Some? <==> s.Some?)
      && (s.Some? ==> Shown(log, app, q).value[k] == s.value[k])
    decreases |log|
  {
    hide Present, Served, Areas, Undisturbed, Found, Contents;
    if i == |log| {
      assert log[..i] == log;
      return;
    }
    var front, e := log[..|log| - 1], log[|log| - 1];
    LastEvent(log, i, app, q, k);
    FrontPart(log, i, app, q, k);
    FirstWord(front, i, app, q, k);
    WordStep(log, app, q, k);
    FirstTouchBefore(log, i, app, q);
    var j := FirstTouch(front, i, app, q);
    assert front[..j] == log[..j];
    assert log[..|log|] == log;
  }

  lemma LastEvent(log: seq<Event>, i: nat, app: nat, q: nat, k: nat)
    requires i < |log| && Undisturbed(log, i, app, q, k) && Found(log, i, app)
    ensures var front, e := log[..|log| - 1], log[|log| - 1];
      && !Restarts(e, app) && !StoresTo(e, app, q, k)
      && (Touches(e, app, q) ==> Shown(front, app, q).Some?)
  {
    assert TouchFinds(log, |log| - 1) || log[|log| - 1].app != app;
  }

  /** An application reads back what it stored last. */
  lemma LastStore(log: seq<Event>, i: nat, app: nat, causal: nat, k: Index, w: Word)
    requires i < |log| && log[i] == Stored(app, causal, k, w) && TouchFinds(log, i)
    requires Undisturbed(log, i + 1, app, causal / 4096, k) && Found(log, i + 1, app)
    ensures Shown(log, app, causal / 4096).Some? && Shown(log, app, causal / 4096).value[k] == w
  {
    var q, upto := causal / 4096, log[..i + 1];
    assert upto[..i] == log[..i] && upto[i] == log[i];
    assert Present(upto, app, q) == Put(Shown(log[..i], app, q), k, w);
    hide Present, Served, Areas, Undisturbed, Found, Contents;
    FirstWord(log, i + 1, app, q, k);
  }

  /** Before it stores to it, an application finds in a word of its memory what its image holds
      there, a zero in the rest of its stack and argument page, and elsewhere what the page came
      up with when it was first touched. */
  lemma LaunchedWord(log: seq<Event>, i: nat, app: nat, q: nat, k: Index)
    requires i < |log| && log[i].Launched? && log[i].app == app
    requires Undisturbed(log, i + 1, app, q, k) && Found(log, i + 1, app)
    ensures var image := Present(log[..i], log[i].template, q);
      if image.Some? then Shown(log, app, q).Some? && Shown(log, app, q).value[k] == image.value[k]
      else if STACK_BEGIN <= q < VPN_COUNT then Shown(log, app, q).Some? && Shown(log, app, q).value[k] == ZERO_WORD
      else
        var j := FirstTouch(log, i + 1, app, q);
        var served := Served(Areas(log[..j], app), Contents(log[..j]), q);
        (Shown(log, app, q).Some? <==> served.Some?) && (served.Some? ==> Shown(log, app, q).value[k] == served.value[k])
  {
    var upto := log[..i + 1];
    assert upto[..i] == log[..i] && upto[i] == log[i];
    assert Present(upto, app, q) ==
      if Present(log[..i], log[i].template, q) == None && STACK_BEGIN <= q < VPN_COUNT then Some(ZeroFrame())
      else Present(log[..i], log[i].template, q);
    hide Present, Served, Areas, Undisturbed, Found, Contents;
    FirstWord(log, i + 1, app, q, k);
  }

  /** Reading never changes what is shown. */
  lemma FetchShowsTheSame(log: seq<Event>, e: Event, app: nat, q: nat)
    requires e.Fetched? || e.Refused?
    ensures Shown(log + [e], app, q) == Shown(log, app, q)
  {
    assert (log + [e])[..|log|] == log;
  }

  // ---- Mapped files

  /** Heap and mappings only grow while the application lives. */
  lemma {:induction false} AreasGrow(log: seq<Event>, i: nat, app: nat)
    requires i <= |log| && forall j :: i <= j < |log| ==> !Restarts(log[j], app)
    ensures var a, b := Areas(log[..i], app), Areas(log, app);
      b.dpagingBegin == a.dpagingBegin && a.dpagingEnd <= b.dpagingEnd && a.fileMaps <= b.fileMaps
    decreases |log|
  {
    if i == |log| {
      assert log[..i] == log;
    } else {
      var front := log[..|log| - 1];
      assert front[..i] == log[..i];
      AreasGrow(front, i, app);
    }
  }

  lemma FirstAreasOk(vaddrEnd: nat)
    ensures AreasOk(FirstAreas(vaddrEnd))
  {}

  lemma WithFileOk(t: TaskMemory, file: nat, size: nat)
    requires AreasOk(t) && size <= t.fileMapEnd
    ensures AreasOk(WithFile(t, file, size))
    ensures var m := FileMapping(file, WithFile(t, file, size).fileMapEnd, t.fileMapEnd);
      m in WithFile(t, file, size).fileMaps && RegionOk(m) && m.vaddrBegin + size <= m.vaddrEnd < m.vaddrBegin + size + 4096
  {
    var m := FileMapping(file, WithFile(t, file, size).fileMapEnd, t.fileMapEnd);
    assert WithFile(t, file, size).fileMaps[|t.fileMaps|] == m;
  }

  lemma {:induction false} AreasAreOk(log: seq<Event>, app: nat)
    ensures AreasOk(Areas(log, app))
  {
    if log != [] {
      var front, e := log[..|log| - 1], log[|log| - 1];
      AreasAreOk(front, app);
      hide AreasOk;
      if e.app == app {
        match e
        case Launched(_, _, vaddrEnd) => FirstAreasOk(vaddrEnd);
        case Grew(_, n) => GrownOk(Areas(front, app), n);
        case Mapped(_, file) =>
          var size := |Content(Contents(front), file)|;
          if size <= Areas(front, app).fileMapEnd { WithFileOk(Areas(front, app), file, size); }
        case _ => NoAreas();
      }
    } else {
      NoAreas();
    }
  }

  lemma NoAreas()
    ensures AreasOk(TaskMemory(0, 0, 0, 0, []))
  {}

  lemma GrownOk(t: TaskMemory, n: nat)
    requires AreasOk(t)
    ensures AreasOk(t.(dpagingEnd := t.dpagingEnd + 4096 * n))
  {}

  /** Mappings are disjoint: an address is in one at most. */
  lemma {:induction false} OneMapping(maps: seq<FileMapping>, m: FileMapping, causal: nat)
    requires forall i, j :: 0 <= i < j < |maps| ==> maps[j].vaddrEnd <= maps[i].vaddrBegin
    requires m in maps && m.Contains(causal)
    ensures FirstMapping(maps, causal) == Some(m)
  {
    var j :| 0 <= j < |maps| && maps[j] == m;
    if j > 0 {
      assert !maps[0].Contains(causal);
      OneMapping(maps[1..], m, causal);
    }
  }

  /** How much of the file area step i took. */
  function SizeAt(log: seq<Event>, i: nat): nat
    requires i < |log| && log[i].Mapped?
  {
    |Content(Contents(log[..i]), log[i].file)|
  }

  /** The mapping that step i made. */
  function Region(log: seq<Event>, i: nat): FileMapping
    requires i < |log| && log[i].Mapped? && SizeAt(log, i) <= Areas(log[..i], log[i].app).fileMapEnd
  {
    var t := Areas(log[..i], log[i].app);
    FileMapping(log[i].file, WithFile(t, log[i].file, SizeAt(log, i)).fileMapEnd, t.fileMapEnd)
  }

  /** Page q belongs to the file that application app mapped at step i. */
  predicate InRegion(log: seq<Event>, i: nat, app: nat, q: nat) {
    && i < |log| && log[i].Mapped? && log[i].app == app && SizeAt(log, i) <= Areas(log[..i], app).fileMapEnd
    && Region(log, i).Contains(q * 4096)
  }

  /** Word k of the page of the file that page q stands for, as the file is at step j. */
  function FileWord(log: seq<Event>, i: nat, j: nat, q: nat, k: Index): Word
    requires i < |log| && InRegion(log, i, log[i].app, q) && j <= |log|
  {
    FilePage(Content(Contents(log[..j]), log[i].file), q * 4096 - Region(log, i).vaddrBegin)[k]
  }

  /** The mapping stays among the application's. */
  lemma RegionStays(log: seq<Event>, i: nat, app: nat, q: nat)
    requires InRegion(log, i, app, q) && forall j :: i <= j < |log| ==> !Restarts(log[j], app)
    ensures FirstMapping(Areas(log, app).fileMaps, q * 4096) == Some(Region(log, i))
  {
    var upto, m := log[..i + 1], Region(log, i);
    assert upto[..i] == log[..i] && upto[i] == log[i];
    AreasAreOk(log[..i], app);
    WithFileOk(Areas(log[..i], app), log[i].file, SizeAt(log, i));
    AreasGrow(log, i + 1, app);
    assert m in Areas(log, app).fileMaps;
    AreasAreOk(log, app);
    hide Areas;
    OneMapping(Areas(log, app).fileMaps, m, q * 4096);
  }

  /** The heap holds the page when it is first touched after the file was mapped. */
  predicate Swallowed(log: seq<Event>, i: nat, app: nat, q: nat)
    requires i <= |log|
  {
    InHeap(Areas(log[..FirstTouch(log, i, app, q)], app), q * 4096)
  }

  /** What a mapped page shows as long as it is not stored to: what was there before, a zero
      if the heap has swallowed it, and else the file's word as it was at the first touch. */
  lemma MappedWord(log: seq<Event>, i: nat, app: nat, q: nat, k: Index)
    requires InRegion(log, i, app, q) && Undisturbed(log, i, app, q, k) && Found(log, i, app)
    ensures Shown(log, app, q).Some? && Shown(log, app, q).value[k] ==
      if Present(log[..i], app, q).Some? then Present(log[..i], app, q).value[k]
      else if Swallowed(log, i, app, q) then ZERO_WORD
      else FileWord(log, i, FirstTouch(log, i, app, q), q, k)
  {
    hide Present, FilePage, Areas, Undisturbed, Found;
    FirstWord(log, i, app, q, k);
    Lives(log, i, app, q, k);
    RegionAt(log, i, app, q, FirstTouch(log, i, app, q));
  }

  lemma Lives(log: seq<Event>, i: nat, app: nat, q: nat, k: nat)
    requires Undisturbed(log, i, app, q, k)
    ensures forall j :: i <= j < |log| ==> !Restarts(log[j], app)
  {}

  lemma RegionAt(log: seq<Event>, i: nat, app: nat, q: nat, j: nat)
    requires InRegion(log, i, app, q) && i <= j <= |log| && FirstTouch(log, i, app, q) == j
    requires forall j :: i <= j < |log| ==> !Restarts(log[j], app)
    ensures InRegion(log, i, app, q) && Region(log, i).vaddrBegin <= q * 4096
    ensures Served(Areas(log[..j], app), Contents(log[..j]), q) ==
      if InHeap(Areas(log[..j], app), q * 4096) then Some(ZeroFrame())
      else Some(FilePage(Content(Contents(log[..j]), log[i].file), q * 4096 - Region(log, i).vaddrBegin))
  {
    hide FilePage, Areas;
    assert j > i;
    var upto := log[..j];
    assert upto[..i] == log[..i] && upto[i] == log[i];
    RegionStays(upto, i, app, q);
  }

  /** A word of a mapped file is seen, as long as it is not stored to, if and only if nothing
      was there when the file was mapped and the heap has not swallowed the page. */
  lemma FileSeen(log: seq<Event>, i: nat, app: nat, q: nat, k: Index)
    requires InRegion(log, i, app, q) && Undisturbed(log, i, app, q, k) && Found(log, i, app)
    requires var w := FileWord(log, i, FirstTouch(log, i, app, q), q, k);
      w != ZERO_WORD && (Present(log[..i], app, q).Some? ==> Present(log[..i], app, q).value[k] != w)
    ensures Shown(log, app, q).Some?
    ensures Shown(log, app, q).value[k] == FileWord(log, i, FirstTouch(log, i, app, q), q, k)
       <==> Present(log[..i], app, q).None? && !Swallowed(log, i, app, q)
  {
    hide Present, FilePage, Areas, Undisturbed, Found, Shown;
    MappedWord(log, i, app, q, k);
  }

  /** So it is in particular when the heap, as it is now, does not reach the page. */
  lemma FileSeenBelow(log: seq<Event>, i: nat, app: nat, q: nat, k: Index)
    requires InRegion(log, i, app, q) && Undisturbed(log, i, app, q, k) && Found(log, i, app)
    requires Present(log[..i], app, q).None? && !InHeap(Areas(log, app), q * 4096)
    ensures Shown(log, app, q).Some?
    ensures Shown(log, app, q).value[k] == FileWord(log, i, FirstTouch(log, i, app, q), q, k)
  {
    hide Present, FilePage, Undisturbed, Found, Shown;
    MappedWord(log, i, app, q, k);
    AreasAfter(log, i, FirstTouch(log, i, app, q), app, q, k);
  }

  lemma AreasAfter(log: seq<Event>, i: nat, j: nat, app: nat, q: nat, k: nat)
    requires i <= j <= |log| && Undisturbed(log, i, app, q, k)
    ensures InHeap(Areas(log[..j], app), q * 4096) ==> InHeap(Areas(log, app), q * 4096)
  {
    AreasGrow(log, j, app);
  }

  // ---- The heap behind the image, the files below the stack

  /** The last page of every segment begins before the end of the image. */
  ghost predicate EndsBy(segments: seq<Segment>, vaddrEnd: nat) {
    forall seg :: seg in segments && seg.pages > 0 ==> (seg.addr.Vpn() + seg.pages - 1) * 4096 < vaddrEnd
  }

  lemma {:induction false} ImageEnds(segments: seq<Segment>, vaddrEnd: nat, q: nat)
    requires EndsBy(segments, vaddrEnd) && vaddrEnd <= q * 4096
    ensures ImagePage(segments, q) == None
  {
    hide LinearAddress4Level.Vpn;
    if segments != [] {
      var seg := segments[|segments| - 1];
      assert seg in segments;
      ImageEnds(segments[..|segments| - 1], vaddrEnd, q);
    }
  }

  /** Nothing happens to an image between its loading and a launch. */
  predicate LoadedAt(log: seq<Event>, t: nat, i: nat, template: nat) {
    && t < i <= |log| && log[t].Loaded? && log[t].app == template
    && forall j :: t < j < i ==> log[j].app != template
  }

  lemma {:induction false} ImageStays(log: seq<Event>, t: nat, i: nat, template: nat, q: nat)
    requires LoadedAt(log, t, i, template)
    ensures Present(log[..i], template, q) == ImagePage(log[t].segments, q)
    decreases i
  {
    hide ImagePage;
    var upto := log[..i];
    assert upto[..i - 1] == log[..i - 1] && upto[i - 1] == log[i - 1];
    if t < i - 1 {
      ImageStays(log, t, i - 1, template, q);
    }
  }

  /** Behind the image and below the stack, nothing is there at the launch. */
  lemma HeapIsFree(log: seq<Event>, t: nat, i: nat, q: nat)
    requires i < |log| && log[i].Launched? && LoadedAt(log, t, i, log[i].template) && EndsBy(log[t].segments, log[i].vaddrEnd)
    requires log[i].vaddrEnd <= q * 4096 && q < STACK_BEGIN
    ensures Present(log[..i], log[i].template, q) == None
  {
    ImageStays(log, t, i, log[i].template, q);
    ImageEnds(log[t].segments, log[i].vaddrEnd, q);
  }

  /** A heap word that was never stored to is a zero. */
  lemma HeapWord(log: seq<Event>, t: nat, i: nat, q: nat, k: Index)
    requires i < |log| && log[i].Launched? && LoadedAt(log, t, i, log[i].template) && EndsBy(log[t].segments, log[i].vaddrEnd)
    requires var app := log[i].app; Undisturbed(log, i + 1, app, q, k) && Found(log, i + 1, app)
    requires q < STACK_BEGIN && InHeap(Areas(log[..FirstTouch(log, i + 1, log[i].app, q)], log[i].app), q * 4096)
    ensures Shown(log, log[i].app, q).Some? && Shown(log, log[i].app, q).value[k] == ZERO_WORD
  {
    hide Present, Undisturbed, Found, Shown, Areas;
    var app, j := log[i].app, FirstTouch(log, i + 1, log[i].app, q);
    HeapBegins(log, i, j, q, k);
    HeapIsFree(log, t, i, q);
    LaunchedWord(log, i, app, q, k);
  }

  /** The heap is never before the image's end. */
  lemma HeapBegins(log: seq<Event>, i: nat, j: nat, q: nat, k: nat)
    requires i < j <= |log| && log[i].Launched? && Undisturbed(log, i + 1, log[i].app, q, k)
    ensures Areas(log[..j], log[i].app).dpagingBegin >= log[i].vaddrEnd
  {
    var upto, app := log[..i + 1], log[i].app;
    assert upto[..i] == log[..i] && upto[i] == log[i];
    FirstAreasStart(log[i].vaddrEnd, 0);
    assert log[..j][..i + 1] == upto;
    AreasGrow(log[..j], i + 1, app);
  }

  /** Mapped files are below the stack. */
  predicate BelowTheStack(t: TaskMemory) {
    t.fileMapEnd <= STACK_BEGIN * 4096 && forall m :: m in t.fileMaps ==> m.vaddrEnd <= STACK_BEGIN * 4096
  }

  lemma WithFileBelow(t: TaskMemory, file: nat, size: nat)
    requires BelowTheStack(t) && size <= t.fileMapEnd
    ensures BelowTheStack(WithFile(t, file, size))
  {}

  lemma StartsBelow(vaddrEnd: nat)
    ensures BelowTheStack(FirstAreas(vaddrEnd)) && BelowTheStack(TaskMemory(0, 0, 0, 0, []))
  {}

  lemma {:induction false} FilesBelow(log: seq<Event>, app: nat)
    ensures BelowTheStack(Areas(log, app))
  {
    StartsBelow(0);
    if log != [] {
      var front, e := log[..|log| - 1], log[|log| - 1];
      FilesBelow(front, app);
      hide BelowTheStack;
      if e.app == app {
        match e
        case Launched(_, _, vaddrEnd) => StartsBelow(vaddrEnd);
        case Grew(_, n) => GrownBelow(Areas(front, app), n);
        case Mapped(_, file) =>
          var size := |Content(Contents(front), file)|;
          if size <= Areas(front, app).fileMapEnd { WithFileBelow(Areas(front, app), file, size); }
        case _ =>
      }
    }
  }

  lemma GrownBelow(t: TaskMemory, n: nat)
    requires BelowTheStack(t)
    ensures BelowTheStack(t.(dpagingEnd := t.dpagingEnd + 4096 * n))
  {}

  /** No page of a mapped file is a stack page or the argument page. */
  lemma RegionBelow(log: seq<Event>, i: nat, app: nat, q: nat)
    requires InRegion(log, i, app, q)
    ensures q < STACK_BEGIN
  {
    FilesBelow(log[..i], app);
    hide Areas;
  }
}
