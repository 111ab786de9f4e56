/** The note viewer's load cycle as a state machine. A navigation (a route
    parameter, or a retry of the current note) starts a load: the content fades
    out while the note is fetched, and once both the 150 ms fade-out and the fetch
    have finished, title, icon, content and description are replaced together and
    the fade-in is queued as a microtask. A failed fetch shows an error at once.
    A content change makes an effect queue the calculator mount pass.

    Timers, the HTTP request and the framework scheduler are replaced by events;
    an event other than running a microtask is only possible once the microtask
    queue has drained, as in a JavaScript event loop. There is no check that a
    finishing load is still the current one: the source has none. */
module NoteLoader {
  import opened Wrappers
  import opened Text

  /** The markdown service's entry for a note. */
  datatype NoteMeta = NoteMeta(title: string, icon: Option<string>)

  /** The fetch of one load: pending, delivered (with the extracted plain text),
      or failed with an error message. */
  datatype Fetch = Pending | Fetched(html: string, text: string) | FetchFailed(message: string)

  /** One call of `loadNote`: the note it is for, the metadata looked up when it
      started, whether the fade-out timer has fired, and the fetch. */
  datatype Load = Load(noteId: string, meta: Option<NoteMeta>, faded: bool, fetch: Fetch)

  /** A queued microtask: the fade-in, or the calculator mount pass. */
  datatype Task = ShowContent | MountWidgets

  datatype Viewer = Viewer(
    currentNoteId: Option<string>,
    error: Option<string>,
    visible: bool,
    title: string,
    icon: Option<string>,
    rawContent: string,
    description: Option<string>,
    lastProcessed: string,
    loads: seq<Load>,
    microtasks: seq<Task>,
    mountPasses: nat)

  const Initial: Viewer := Viewer(None, None, false, "", None, "", None, "", [], [], 0)

  datatype Event =
    | RouteParam(id: Option<string>)
    | Retry
    | FadeOutDone(load: nat)
    | FetchSucceeded(load: nat, html: string)
    | FetchErrored(load: nat, message: string)
    | RunEffect
    | RunMicrotask

  const DescriptionLength: nat := 160
  const NoIdMessage: string := "No note ID provided"
  const FailurePrefix: string := "Failed to load note: "

  /** `textContent.substring(0, 160)`. */
  function Excerpt(text: string): (r: string)
    ensures r <= text && |r| == if |text| <= DescriptionLength then |text| else DescriptionLength
  {
    if |text| <= DescriptionLength then text else text[..DescriptionLength]
  }

  /** `textContent.substring(0, 160).trim() + '...'`. */
  function Describe(text: string): (r: string)
    ensures 3 <= |r| <= DescriptionLength + 3
    ensures r[|r| - 3..] == "..."
  {
    TrimIsInfix(Excerpt(text));
    Trim(Excerpt(text)) + "..."
  }

  /** In front of the three dots is a piece of the first 160 characters, cut out
      of them at white space only. */
  lemma DescribeIsTrimmedStart(text: string)
    ensures var cut := Excerpt(text);
      var body := Trim(cut);
      var i := |cut| - |TrimStart(cut)|;
      && Describe(text) == body + "..."
      && i + |body| <= |cut| && cut[i..i + |body|] == body
      && AllSpace(cut[..i]) && AllSpace(cut[i + |body|..])
  {
    TrimIsInfix(Excerpt(text));
  }

  /** A short text without white space at its ends is kept whole. */
  lemma DescribeShortText(text: string)
    requires |text| <= DescriptionLength
    requires text == [] || (!IsSpace(text[0]) && !IsSpace(text[|text| - 1]))
    ensures Describe(text) == text + "..."
  {
    TrimOfTrimmed(text);
  }

  /** A load is over: it either delivered after the fade-out, or failed. */
  predicate Settled(l: Load) {
    (l.faded && l.fetch.Fetched?) || l.fetch.FetchFailed?
  }

  /** What an event needs: a microtask to run, or a drained queue and, for a
      load's completion, a load still waiting for it. */
  predicate Enabled(v: Viewer, e: Event) {
    match e
    case RunMicrotask => v.microtasks != []
    case FadeOutDone(k) => v.microtasks == [] && k < |v.loads| && !v.loads[k].faded
    case FetchSucceeded(k, _) => v.microtasks == [] && k < |v.loads| && v.loads[k].fetch.Pending?
    case FetchErrored(k, _) => v.microtasks == [] && k < |v.loads| && v.loads[k].fetch.Pending?
    case _ => v.microtasks == []
  }

  /** `loadNote(noteId)`: records the note, clears the error, starts the fade-out
      and starts the fetch, with the note's metadata looked up now. */
  function LoadNote(v: Viewer, noteId: string, catalog: map<string, NoteMeta>): Viewer {
    var meta := if noteId in catalog then Some(catalog[noteId]) else None;
    v.(currentNoteId := Some(noteId), error := None, visible := false,
       loads := v.loads + [Load(noteId, meta, false, Pending)])
  }

  /** The title a load shows: the metadata's, or the note id without metadata. */
  function TitleOf(l: Load): string {
    if l.meta.Some? then l.meta.value.title else l.noteId
  }

  function IconOf(l: Load): Option<string> {
    if l.meta.Some? then l.meta.value.icon else None
  }

  /** `Promise.all` of fade-out and fetch: once both are done, the content swap
      and the queued fade-in. */
  function Join(v: Viewer, k: nat): Viewer
    requires k < |v.loads|
  {
    var l := v.loads[k];
    if l.faded && l.fetch.Fetched? then
      v.(title := TitleOf(l), icon := IconOf(l), rawContent := l.fetch.html,
         description := Some(Describe(l.fetch.text)), microtasks := v.microtasks + [ShowContent])
    else v
  }

  /** One event. `extract` is `extractTextContent`: parsing the fetched HTML and
      taking its normalised visible text (`Dom.ExtractText`). */
  function Step(v: Viewer, e: Event, catalog: map<string, NoteMeta>, extract: string -> string): Viewer
    requires Enabled(v, e)
  {
    match e
    case RouteParam(id) =>
      if id.Some? && id.value != [] then LoadNote(v, id.value, catalog)
      else v.(error := Some(NoIdMessage), visible := false)
    case Retry =>
      if v.currentNoteId.Some? && v.currentNoteId.value != [] then LoadNote(v, v.currentNoteId.value, catalog) else v
    case FadeOutDone(k) =>
      Join(v.(loads := v.loads[k := v.loads[k].(faded := true)]), k)
    case FetchSucceeded(k, html) =>
      Join(v.(loads := v.loads[k := v.loads[k].(fetch := Fetched(html, extract(html)))]), k)
    case FetchErrored(k, message) =>
      v.(loads := v.loads[k := v.loads[k].(fetch := FetchFailed(message))],
         error := Some(FailurePrefix + message), visible := false)
    case RunEffect =>
      if v.rawContent != [] && v.rawContent != v.lastProcessed then
        v.(lastProcessed := v.rawContent, microtasks := v.microtasks + [MountWidgets])
      else v
    case RunMicrotask =>
      var rest := v.microtasks[1..];
      if v.microtasks[0] == ShowContent then v.(microtasks := rest, visible := true)
      else v.(microtasks := rest, mountPasses := v.mountPasses + 1)
  }

  /** The fields the user sees swap together. */
  predicate SameDisplay(v: Viewer, w: Viewer) {
    v.title == w.title && v.icon == w.icon && v.rawContent == w.rawContent && v.description == w.description
  }

  /** A navigation to a note hides the content, clears the error, records the
      note and starts a load for it, changing nothing that is shown. */
  lemma NavigationStartsLoad(v: Viewer, id: string, catalog: map<string, NoteMeta>, extract: string -> string)
    requires Enabled(v, RouteParam(Some(id))) && id != []
    ensures var w := Step(v, RouteParam(Some(id)), catalog, extract);
      && w.currentNoteId == Some(id) && w.error.None? && !w.visible
      && SameDisplay(v, w)
      && |w.loads| == |v.loads| + 1 && w.loads[..|v.loads|] == v.loads
      && w.loads[|v.loads|].noteId == id && !Settled(w.loads[|v.loads|])
      && (id in catalog <==> w.loads[|v.loads|].meta.Some?)
  {
  }

  /** A route without an id shows the "no note" error and hides the content. */
  lemma MissingIdShowsError(v: Viewer, id: Option<string>, catalog: map<string, NoteMeta>, extract: string -> string)
    requires Enabled(v, RouteParam(id)) && (id.None? || id.value == [])
    ensures var w := Step(v, RouteParam(id), catalog, extract);
      w.error == Some("No note ID provided") && !w.visible && SameDisplay(v, w) && w.loads == v.loads
  {
  }

  /** Retrying reloads the current note exactly as navigating to it would, and
      does nothing when there is no current note. */
  lemma RetryReloadsCurrent(v: Viewer, catalog: map<string, NoteMeta>, extract: string -> string)
    requires Enabled(v, Retry)
    ensures v.currentNoteId.Some? && v.currentNoteId.value != [] ==>
      Step(v, Retry, catalog, extract) == Step(v, RouteParam(v.currentNoteId), catalog, extract)
    ensures v.currentNoteId.None? || v.currentNoteId.value == [] ==> Step(v, Retry, catalog, extract) == v
  {
  }

  /** A failed fetch ends its load with the error message, hides the content and
      leaves what was shown in place. */
  lemma FailureShowsError(v: Viewer, k: nat, message: string, catalog: map<string, NoteMeta>, extract: string -> string)
    requires Enabled(v, FetchErrored(k, message))
    ensures var w := Step(v, FetchErrored(k, message), catalog, extract);
      && w.error == Some("Failed to load note: " + message) && !w.visible && SameDisplay(v, w)
      && Settled(w.loads[k]) && w.microtasks == v.microtasks
  {
  }

  /** The shown fields change only when a load completes its join: the load
      whose event it is has now both faded out and delivered, its content and
      title are the ones shown, and the fade-in is queued in the same step. */
  lemma DisplayChangesOnlyAtJoin(v: Viewer, e: Event, catalog: map<string, NoteMeta>, extract: string -> string)
    requires Enabled(v, e)
    ensures var w := Step(v, e, catalog, extract);
      !SameDisplay(v, w) ==>
        && (e.FadeOutDone? || e.FetchSucceeded?)
        && !Settled(v.loads[e.load]) && Settled(w.loads[e.load]) && w.loads[e.load].fetch.Fetched?
        && w.rawContent == w.loads[e.load].fetch.html
        && w.title == TitleOf(w.loads[e.load])
        && w.icon == IconOf(w.loads[e.load])
        && w.description == Some(Describe(w.loads[e.load].fetch.text))
        && w.microtasks == v.microtasks + [ShowContent]
  {
  }

  /** The content becomes visible only by running a queued fade-in, and a
      fade-in is queued only by a join. */
  lemma VisibleOnlyByFadeIn(v: Viewer, e: Event, catalog: map<string, NoteMeta>, extract: string -> string)
    requires Enabled(v, e)
    ensures var w := Step(v, e, catalog, extract);
      && (!v.visible && w.visible ==> e.RunMicrotask? && v.microtasks[0] == ShowContent)
      && (multiset(w.microtasks)[ShowContent] > multiset(v.microtasks)[ShowContent] ==>
            (e.FadeOutDone? || e.FetchSucceeded?) && Settled(w.loads[e.load]))
  {
    if e.RunMicrotask? {
      assert v.microtasks == [v.microtasks[0]] + v.microtasks[1..];
    }
  }

  /** The effect queues a mount pass exactly when the content is non-empty and
      differs from the content it last handled; running it again right away does
      nothing. */
  lemma EffectQueuesMountOnce(v: Viewer, catalog: map<string, NoteMeta>, extract: string -> string)
    requires Enabled(v, RunEffect)
    ensures var w := Step(v, RunEffect, catalog, extract);
      && (w.microtasks == v.microtasks + [MountWidgets] <==> v.rawContent != [] && v.rawContent != v.lastProcessed)
      && (w.microtasks == v.microtasks || w.microtasks == v.microtasks + [MountWidgets])
      && w.lastProcessed == (if v.rawContent != [] then v.rawContent else v.lastProcessed)
      && (v.rawContent != [] ==> w.lastProcessed == v.rawContent)
      && (Enabled(w, RunEffect) ==> Step(w, RunEffect, catalog, extract) == w)
  {
    var w := Step(v, RunEffect, catalog, extract);
    if !(v.rawContent != [] && v.rawContent != v.lastProcessed) {
      assert w == v;
    }
    assert |v.microtasks + [MountWidgets]| != |v.microtasks|;
  }

  /** Loads do not overlap: every load but the newest is over, and while the
      newest is running the content stays hidden and no fade-in is queued. */
  predicate OneAtATime(v: Viewer) {
    && (forall k :: 0 <= k < |v.loads| - 1 ==> Settled(v.loads[k]))
    && (v.loads != [] && !Settled(v.loads[|v.loads| - 1]) ==> !v.visible && ShowContent !in v.microtasks)
  }

  /** A navigation while no load is running. */
  predicate Navigates(e: Event) {
    e.RouteParam? || e.Retry?
  }

  predicate AllSettled(v: Viewer) {
    forall k :: 0 <= k < |v.loads| ==> Settled(v.loads[k])
  }

  /** When every navigation waits for the running load to finish, loads never
      overlap. */
  lemma SequentialLoadsStayOneAtATime(v: Viewer, e: Event, catalog: map<string, NoteMeta>, extract: string -> string)
    requires Enabled(v, e) && OneAtATime(v)
    requires Navigates(e) ==> AllSettled(v)
    ensures OneAtATime(Step(v, e, catalog, extract))
  {
    match e
    case FadeOutDone(k) => LoadEventKeepsOneAtATime(v, e, catalog, extract);
    case FetchSucceeded(k, _) => LoadEventKeepsOneAtATime(v, e, catalog, extract);
    case FetchErrored(k, _) => LoadEventKeepsOneAtATime(v, e, catalog, extract);
    case RunMicrotask =>
      var w := Step(v, e, catalog, extract);
      assert v.microtasks == [v.microtasks[0]] + w.microtasks;
    case _ =>
  }

  /** The events of one load change that load only. */
  lemma LoadEventKeepsOneAtATime(v: Viewer, e: Event, catalog: map<string, NoteMeta>, extract: string -> string)
    requires Enabled(v, e) && OneAtATime(v)
    requires e.FadeOutDone? || e.FetchSucceeded? || e.FetchErrored?
    ensures OneAtATime(Step(v, e, catalog, extract))
  {
    var w := Step(v, e, catalog, extract);
    assert |w.loads| == |v.loads|;
    assert forall j :: 0 <= j < |w.loads| && j != e.load ==> w.loads[j] == v.loads[j];
  }

  /** With loads that do not overlap, each content swap happens while the
      content is hidden, as the fade design intends. */
  lemma SequentialLoadsSwapWhileHidden(v: Viewer, e: Event, catalog: map<string, NoteMeta>, extract: string -> string)
    requires Enabled(v, e) && OneAtATime(v)
    ensures !SameDisplay(v, Step(v, e, catalog, extract)) ==> !v.visible
  {
    DisplayChangesOnlyAtJoin(v, e, catalog, extract);
  }

  /** Nothing checks that a completing load is still the current one: a load
      that has faded out swaps its content and title in when its fetch delivers,
      whichever note is recorded as current, and the content stays as visible as
      it was. */
  lemma CompletionIgnoresCurrentNote(v: Viewer, k: nat, html: string, catalog: map<string, NoteMeta>,
                                     extract: string -> string)
    requires Enabled(v, FetchSucceeded(k, html)) && v.loads[k].faded
    ensures var w := Step(v, FetchSucceeded(k, html), catalog, extract);
      && w.rawContent == html && w.title == TitleOf(v.loads[k])
      && w.currentNoteId == v.currentNoteId && w.visible == v.visible
  {
  }

  /** Two navigations in quick succession, A then B: when A's timer and fetch
      complete, A's content and title are shown although B is the current note. */
  lemma StaleLoadOverwritesCurrent(extract: string -> string, html: string)
    ensures
      var v1 := Step(Initial, RouteParam(Some("A")), map[], extract);
      var v2 := Step(v1, RouteParam(Some("B")), map[], extract);
      && Enabled(v2, FadeOutDone(0))
      && var v3 := Step(v2, FadeOutDone(0), map[], extract);
      && Enabled(v3, FetchSucceeded(0, html))
      && var v4 := Step(v3, FetchSucceeded(0, html), map[], extract);
      && v4.rawContent == html && v4.title == "A" && v4.currentNoteId == Some("B")
  {
    var a := Load("A", None, false, Pending);
    var v1 := Step(Initial, RouteParam(Some("A")), map[], extract);
    assert v1.loads == [a];
    var v2 := Step(v1, RouteParam(Some("B")), map[], extract);
    assert v2.loads[0] == a && v2.microtasks == [];
    var v3 := Step(v2, FadeOutDone(0), map[], extract);
    assert v3.loads[0] == a.(faded := true) && v3.currentNoteId == Some("B");
    CompletionIgnoresCurrentNote(v3, 0, html, map[], extract);
  }

  /** The first half of the overlapping trace: A shows while B is still pending. */
  lemma OverlapShowsFirst(extract: string -> string, h1: string)
    ensures
      var v1 := Step(Initial, RouteParam(Some("A")), map[], extract);
      && Enabled(v1, FadeOutDone(0))
      && var v2 := Step(v1, FadeOutDone(0), map[], extract);
      && Enabled(v2, RouteParam(Some("B")))
      && var v3 := Step(v2, RouteParam(Some("B")), map[], extract);
      && Enabled(v3, FetchSucceeded(0, h1))
      && var v4 := Step(v3, FetchSucceeded(0, h1), map[], extract);
      && Enabled(v4, RunMicrotask)
      && var v5 := Step(v4, RunMicrotask, map[], extract);
      && v5.visible && v5.microtasks == [] && v5.title == "A"
      && |v5.loads| == 2 && v5.loads[1] == Load("B", None, false, Pending)
  {
    var a := Load("A", None, false, Pending);
    var b := Load("B", None, false, Pending);
    var v1 := Step(Initial, RouteParam(Some("A")), map[], extract);
    assert v1.loads == [a] && v1.microtasks == [];
    var v2 := Step(v1, FadeOutDone(0), map[], extract);
    assert v2.loads == [a.(faded := true)] && v2.microtasks == [];
    var v3 := Step(v2, RouteParam(Some("B")), map[], extract);
    assert v3.loads == [a.(faded := true), b] && v3.microtasks == [];
    var v4 := Step(v3, FetchSucceeded(0, h1), map[], extract);
    assert v4.title == "A" && v4.microtasks == [ShowContent] && v4.loads[1] == b;
  }

  /** From a visible page with load 1 still pending, B's fade and fetch swap the text in view. */
  lemma PendingSecondSwapsVisible(v5: Viewer, extract: string -> string, h2: string)
    requires v5.visible && v5.microtasks == [] && v5.title == "A"
    requires |v5.loads| == 2 && v5.loads[1] == Load("B", None, false, Pending)
    ensures
      && Enabled(v5, FadeOutDone(1))
      && var v6 := Step(v5, FadeOutDone(1), map[], extract);
      && Enabled(v6, FetchSucceeded(1, h2))
      && var v7 := Step(v6, FetchSucceeded(1, h2), map[], extract);
      && v6.visible && !SameDisplay(v6, v7) && v7.title == "B"
  {
    var b := Load("B", None, false, Pending);
    var v6 := Step(v5, FadeOutDone(1), map[], extract);
    assert v6.visible && v6.title == "A" && v6.loads[1] == b.(faded := true) && v6.microtasks == [];
    var v7 := Step(v6, FetchSucceeded(1, h2), map[], extract);
    assert v7.title == "B";
  }

  /** Two overlapping loads, A then B: A's content is swapped in and faded in
      while B is still loading, and B's completion then swaps the content while
      it is visible. */
  lemma OverlappingLoadSwapsWhileVisible(extract: string -> string, h1: string, h2: string)
    ensures
      var v1 := Step(Initial, RouteParam(Some("A")), map[], extract);
      && Enabled(v1, FadeOutDone(0))
      && var v2 := Step(v1, FadeOutDone(0), map[], extract);
      && Enabled(v2, RouteParam(Some("B")))
      && var v3 := Step(v2, RouteParam(Some("B")), map[], extract);
      && Enabled(v3, FetchSucceeded(0, h1))
      && var v4 := Step(v3, FetchSucceeded(0, h1), map[], extract);
      && Enabled(v4, RunMicrotask)
      && var v5 := Step(v4, RunMicrotask, map[], extract);
      && Enabled(v5, FadeOutDone(1))
      && var v6 := Step(v5, FadeOutDone(1), map[], extract);
      && Enabled(v6, FetchSucceeded(1, h2))
      && var v7 := Step(v6, FetchSucceeded(1, h2), map[], extract);
      && v6.visible && !SameDisplay(v6, v7) && v7.title == "B"
  {
    OverlapShowsFirst(extract, h1);
    var v1 := Step(Initial, RouteParam(Some("A")), map[], extract);
    var v2 := Step(v1, FadeOutDone(0), map[], extract);
    var v3 := Step(v2, RouteParam(Some("B")), map[], extract);
    var v4 := Step(v3, FetchSucceeded(0, h1), map[], extract);
    var v5 := Step(v4, RunMicrotask, map[], extract);
    PendingSecondSwapsVisible(v5, extract, h2);
  }

  /** The evidently intended load cycle: only the newest load, the one for the
      note navigated to last, may touch what is shown. An older load's timer,
      delivery or failure is recorded in that load and changes nothing else. */
  function GuardedStep(v: Viewer, e: Event, catalog: map<string, NoteMeta>, extract: string -> string): Viewer
    requires Enabled(v, e)
  {
    match e
    case FadeOutDone(k) =>
      var w := v.(loads := v.loads[k := v.loads[k].(faded := true)]);
      if k + 1 == |v.loads| then Join(w, k) else w
    case FetchSucceeded(k, html) =>
      var w := v.(loads := v.loads[k := v.loads[k].(fetch := Fetched(html, extract(html)))]);
      if k + 1 == |v.loads| then Join(w, k) else w
    case FetchErrored(k, message) =>
      if k + 1 == |v.loads| then Step(v, e, catalog, extract)
      else v.(loads := v.loads[k := v.loads[k].(fetch := FetchFailed(message))])
    case _ => Step(v, e, catalog, extract)
  }

  /** While the newest load runs, the content is hidden and no fade-in waits. */
  predicate Guarded(v: Viewer) {
    v.loads != [] && !Settled(v.loads[|v.loads| - 1]) ==> !v.visible && ShowContent !in v.microtasks
  }

  /** With the guard, every step keeps the newest load hidden while it runs, and
      the display changes only at the newest load's join, while the content is
      hidden, however loads overlap. */
  lemma GuardedSwapWhileHidden(v: Viewer, e: Event, catalog: map<string, NoteMeta>, extract: string -> string)
    requires Enabled(v, e) && Guarded(v)
    ensures var w := GuardedStep(v, e, catalog, extract);
      && Guarded(w)
      && (!SameDisplay(v, w) ==> !v.visible && (e.FadeOutDone? || e.FetchSucceeded?) && e.load + 1 == |v.loads|)
  {
    var w := GuardedStep(v, e, catalog, extract);
    match e
    case RunMicrotask =>
      assert v.microtasks == [v.microtasks[0]] + w.microtasks;
    case RunEffect =>
      assert ShowContent !in v.microtasks ==> ShowContent !in v.microtasks + [MountWidgets];
    case FadeOutDone(k) =>
      assert |w.loads| == |v.loads|;
      if k + 1 != |v.loads| {
        assert w.loads[|w.loads| - 1] == v.loads[|v.loads| - 1];
      }
    case FetchSucceeded(k, _) =>
      assert |w.loads| == |v.loads|;
      if k + 1 != |v.loads| {
        assert w.loads[|w.loads| - 1] == v.loads[|v.loads| - 1];
      }
    case FetchErrored(k, _) =>
      assert |w.loads| == |v.loads|;
      if k + 1 != |v.loads| {
        assert w.loads[|w.loads| - 1] == v.loads[|v.loads| - 1];
      }
    case _ =>
  }

  /** Loads that do not overlap never reach the guard: there the guarded cycle
      and the code's cycle take the same steps. */
  lemma GuardedAgreesWhenSequential(v: Viewer, e: Event, catalog: map<string, NoteMeta>, extract: string -> string)
    requires Enabled(v, e) && OneAtATime(v)
    ensures GuardedStep(v, e, catalog, extract) == Step(v, e, catalog, extract)
  {
    match e
    case FadeOutDone(k) =>
      if k + 1 != |v.loads| {
        assert Settled(v.loads[k]);
      }
    case _ =>
  }

  /** With the guard, the race of two quick navigations shows nothing of the
      superseded note: A's completion leaves title and content as they were. */
  lemma GuardedIgnoresStale(extract: string -> string, html: string)
    ensures
      var v1 := GuardedStep(Initial, RouteParam(Some("A")), map[], extract);
      var v2 := GuardedStep(v1, RouteParam(Some("B")), map[], extract);
      && Enabled(v2, FadeOutDone(0))
      && var v3 := GuardedStep(v2, FadeOutDone(0), map[], extract);
      && Enabled(v3, FetchSucceeded(0, html))
      && var v4 := GuardedStep(v3, FetchSucceeded(0, html), map[], extract);
      && v4.rawContent == Initial.rawContent && v4.title == Initial.title && v4.currentNoteId == Some("B")
  {
    var a := Load("A", None, false, Pending);
    var v1 := GuardedStep(Initial, RouteParam(Some("A")), map[], extract);
    assert v1.loads == [a];
    var v2 := GuardedStep(v1, RouteParam(Some("B")), map[], extract);
    assert |v2.loads| == 2 && v2.loads[0] == a && v2.microtasks == [];
    var v3 := GuardedStep(v2, FadeOutDone(0), map[], extract);
    assert |v3.loads| == 2 && v3.loads[0] == a.(faded := true) && v3.rawContent == Initial.rawContent;
  }
}
