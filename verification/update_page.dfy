/** The per-document decision machine (src/UpdatePage.ts:223-327):
    `updatePage` and `sendPageUpdate` as a pure function from the inputs
    and the remote side's replies to the trace of remote and cache
    operations issued, in order.

    The remote side is an oracle: each reply is a function of the trace so
    far, ending with the operation being answered, and `None` (or `false`)
    stands for a call that throws. Deleting and uploading an attachment
    never throw, because the client catches their errors. */
module Sync {
  import opened Wrappers
  import opened ConfluenceTypes
  import opened Attachments
  import opened PageBuilder
  import opened WikiFormat
  import DynamicIds

  /** The operations the machine issues. */
  datatype Op =
    | Search(title: string, spaceKey: Option<string>)
    | Create(page: ConfluencePage)
    | ListAttachments(pageId: string)
    | Delete(attachment: RemoteAttachment)
    | Upload(pageId: string, fileName: string)
    | Fetch(pageId: string)
    | CacheWrite(key: string, markup: string)
    | Update(pageId: string, page: ConfluencePage)

  /** The reply to a create call: it throws, it returns no data (which
      `sendPageToConfluence` turns into an error), or it returns a page
      whose id may be empty. */
  datatype CreateReply = Threw | NoData | Created(id: string)

  /** The replies of the remote side, each a function of the trace so far. */
  datatype Remote = Remote(
    search: seq<Op> -> Option<seq<string>>,
    attachments: seq<Op> -> Option<seq<RemoteAttachment>>,
    fetch: seq<Op> -> Option<ConfluencePage>,
    create: seq<Op> -> CreateReply,
    update: seq<Op> -> bool)

  /** Everything one call of `updatePage` depends on: the remote side, the
      local files, the cache directory's contents (the files keyed by their
      path below the cache directory, and the paths there that are
      directories), the document text, the renderer, the configuration, the
      resolved space and the force flag. */
  datatype Env = Env(
    remote: Remote,
    files: Files,
    cache: map<string, string>,
    cacheDirs: set<string>,
    source: string,
    render: (string, Page) -> string,
    config: Config,
    space: Option<Space>,
    force: bool)

  /** The mutable part of a call: the page data (whose id the machine
      fills in) and the operations issued so far. */
  datatype Run = Run(page: Page, trace: seq<Op>)

  /** A step either goes on with a value or throws; either way the state
      reached is kept, so a `catch` block resumes from it. */
  datatype Flow<T> = Next(value: T, run: Run) | Raised(run: Run)

  /** The result of `updatePage`: the operations issued and whether it threw. */
  datatype Outcome = Outcome(trace: seq<Op>, threw: bool)

  function Issue(run: Run, op: Op): Run {
    run.(trace := run.trace + [op])
  }

  /** `t` begins with `s`. */
  predicate Extends(s: seq<Op>, t: seq<Op>) {
    |s| <= |t| && t[..|s|] == s
  }

  /** The operations of `t` after its first `n`. */
  predicate NoSearchOrCreateAfter(t: seq<Op>, n: nat) {
    forall i :: n <= i < |t| ==> !t[i].Search? && !t[i].Create?
  }

  // ---------------------------------------------------------------------
  // sendPageToConfluence
  // ---------------------------------------------------------------------

  /** `sendPageToConfluence(cp, pageData, md)`: without a title nothing is
      sent; otherwise the prepared page is sent as an update when the page
      has an id and as a create when it has none. The value is the id of a
      created page. */
  function SendPage(env: Env, cp: ConfluencePage, md: string, run: Run): (f: Flow<Option<string>>)
    ensures f.run.page == run.page
    ensures !Truthy(run.page.title) ==> f == Next(None, run)
    ensures Truthy(run.page.title) && Truthy(run.page.pageId) ==>
      f.run.trace == run.trace + [Update(run.page.pageId.value, PreparePage(cp, run.page, md))]
    ensures Truthy(run.page.title) && !Truthy(run.page.pageId) ==>
      f.run.trace == run.trace + [Create(PreparePage(cp, run.page, md))]
    ensures f.Next? && f.value.Some? ==> Truthy(run.page.title) && !Truthy(run.page.pageId)
    ensures f.Raised? <==>
              Truthy(run.page.title) &&
              if Truthy(run.page.pageId) then !env.remote.update(f.run.trace) else !env.remote.create(f.run.trace).Created?
  {
    if !Truthy(run.page.title) then Next(None, run)
    else
      var p := PreparePage(cp, run.page, md);
      if Truthy(run.page.pageId) then
        var r := Issue(run, Update(run.page.pageId.value, p));
        if env.remote.update(r.trace) then Next(None, r) else Raised(r)
      else
        var r := Issue(run, Create(p));
        match env.remote.create(r.trace)
        case Created(id) => Next(Some(id), r)
        case _ => Raised(r)
  }

  // ---------------------------------------------------------------------
  // updateAttachments
  // ---------------------------------------------------------------------

  function DeleteOps(stale: seq<RemoteAttachment>): (ops: seq<Op>)
    ensures forall i :: 0 <= i < |ops| ==> ops[i].Delete?
  {
    seq(|stale|, i requires 0 <= i < |stale| => Delete(stale[i]))
  }

  function UploadOps(pageId: string, uploads: seq<Local>): (ops: seq<Op>)
    ensures forall i :: 0 <= i < |ops| ==> ops[i].Upload?
  {
    seq(|uploads|, i requires 0 <= i < |uploads| => Upload(pageId, uploads[i].remoteFileName))
  }

  /** Every delete comes before every upload. */
  predicate DeletesBeforeUploads(t: seq<Op>) {
    forall i, j :: 0 <= i < j < |t| && t[i].Upload? ==> !t[j].Delete?
  }

  /** `updateAttachments(md, pageData, cachePath, api, force)`. Without an
      id the markup comes back unchanged and nothing is called. Otherwise
      the listing is fetched; the out-of-date remote attachments are deleted
      and then the local ones to upload are uploaded, and the markup comes
      back with its referenced file names sanitised. */
  function UpdateAttachments(env: Env, md: string, run: Run): (f: Flow<string>)
    ensures f.run.page == run.page
    ensures !Truthy(run.page.pageId) ==> f == Next(md, run)
    ensures Truthy(run.page.pageId) ==>
      Extends(run.trace + [ListAttachments(run.page.pageId.value)], f.run.trace)
    ensures f.Raised? ==> f.run.trace == run.trace + [ListAttachments(run.page.pageId.value)]
    ensures f.Next? ==> f.value == (if Truthy(run.page.pageId) then RewriteReferences(md) else md)
  {
    if !Truthy(run.page.pageId) then Next(md, run)
    else
      var id := run.page.pageId.value;
      var r := Issue(run, ListAttachments(id));
      match env.remote.attachments(r.trace)
      case None => Raised(r)
      case Some(remotes) =>
        var matched := MatchAll(ExtractAttachments(env.files, run.page.file, md), remotes);
        var deletes := DeleteOps(OutOfDate(matched, remotes));
        var uploads := UploadOps(id, ToUpload(matched, env.force));
        Next(RewriteReferences(md), r.(trace := r.trace + deletes + uploads))
  }

  lemma AttachmentPhaseShape(t: seq<Op>, list: Op, deletes: seq<Op>, uploads: seq<Op>)
    requires list.ListAttachments?
    requires forall i :: 0 <= i < |deletes| ==> deletes[i].Delete?
    requires forall i :: 0 <= i < |uploads| ==> uploads[i].Upload?
    ensures var u := t + [list] + deletes + uploads;
      Extends(t + [list], u) && u[|t|..] == [list] + deletes + uploads
      && DeletesBeforeUploads(u[|t|..])
      && (forall i :: |t| < i < |u| ==> u[i].Delete? || u[i].Upload?)
      && NoSearchOrCreateAfter(u, |t|) && Disciplined(u, |t|)
  {
    var u := t + [list] + deletes + uploads;
    assert u[|t|..] == [list] + deletes + uploads;
    assert forall i :: |t| < i <= |t| + |deletes| ==> u[i] == deletes[i - |t| - 1];
    assert forall i :: |t| + |deletes| < i < |u| ==> u[i] == uploads[i - |t| - |deletes| - 1];
  }

  /** With the listing in hand, the operations after it are exactly the
      deletes of the out-of-date attachments, in listing order, followed by
      the uploads of the attachments to upload. */
  lemma AttachmentOps(env: Env, md: string, run: Run, remotes: seq<RemoteAttachment>)
    requires Truthy(run.page.pageId)
    requires env.remote.attachments(run.trace + [ListAttachments(run.page.pageId.value)]) == Some(remotes)
    ensures var matched := MatchAll(ExtractAttachments(env.files, run.page.file, md), remotes);
      UpdateAttachments(env, md, run).Next?
      && UpdateAttachments(env, md, run).run.trace
        == run.trace + [ListAttachments(run.page.pageId.value)]
          + DeleteOps(OutOfDate(matched, remotes))
          + UploadOps(run.page.pageId.value, ToUpload(matched, env.force))
  {
  }

  // ---------------------------------------------------------------------
  // sendPageUpdate
  // ---------------------------------------------------------------------

  /** `sendPageUpdate(pageData, config, md, cachePath, api, force)`. Without
      an id nothing happens. Otherwise the attachments are reconciled, the
      current page is fetched, and when forced or when the markup drifted
      the cache file is written and the page is updated. Neither a search
      nor a create is ever issued. */
  function SendPageUpdate(env: Env, md: string, run: Run): (f: Flow<()>)
    ensures f.run.page == run.page
    ensures !Truthy(run.page.pageId) ==> f == Next((), run)
  {
    if !Truthy(run.page.pageId) then Next((), run)
    else match UpdateAttachments(env, md, run)
      case Raised(r) => Raised(r)
      case Next(rewritten, r) =>
        FetchAndSend(env, rewritten, r)
  }

  /** src/UpdatePage.ts:229-240 after the attachments: fetch the current page, and when
      forced or drifted, write the cache file and then send the update. */
  function FetchAndSend(env: Env, rewritten: string, run: Run): (f: Flow<()>)
    requires Truthy(run.page.pageId)
    ensures f.run.page == run.page
  {
    var id := run.page.pageId.value;
    var r1 := Issue(run, Fetch(id));
    match env.remote.fetch(r1.trace)
    case None => Raised(r1)
    case Some(cp) =>
      if !env.force && !DynamicIds.IsRemoteUpdateRequired(rewritten, cp.body.value) then Next((), r1)
      else
        if NamesDirectory(env, id) then Raised(r1)
        else
        var r2 := Issue(r1, CacheWrite(id, rewritten));
        match SendPage(env, cp, rewritten, r2)
        case Raised(r3) => Raised(r3)
        case Next(_, r3) => Next((), r3)
  }

  // ---------------------------------------------------------------------
  // The create path, the try block and its catch block
  // ---------------------------------------------------------------------

  /** src/UpdatePage.ts:292-297 and 306-311: send the blank scaffold, and when a page
      with an id comes back, adopt the id and send the update. */
  function CreatePage(env: Env, space: Space, md: string, run: Run): (f: Flow<()>)
    ensures f.run.page.(pageId := run.page.pageId) == run.page
  {
    match SendPage(env, NewBlankPage(space), md, run)
    case Raised(r) => Raised(r)
    case Next(posted, r) =>
      if Truthy(posted) then SendPageUpdate(env, md, r.(page := r.page.(pageId := posted)))
      else Next((), r)
  }

  function Continue(f: Flow<()>): (g: Flow<bool>)
    ensures g.run == f.run && g.Raised? == f.Raised?
    ensures g.Next? ==> !g.value
  {
    match f
    case Raised(r) => Raised(r)
    case Next(_, r) => Next(false, r)
  }

  /** The try block (src/UpdatePage.ts:279-299). The value is true when the block
      returns from `updatePage` (no results and no space). */
  function TryFind(env: Env, md: string, title: string, run: Run): (f: Flow<bool>)
    ensures f.run.page.(pageId := run.page.pageId) == run.page
  {
    var r := Issue(run, Search(title, env.config.spaceKey));
    match env.remote.search(r.trace)
    case None => Raised(r)
    case Some(results) =>
      if |results| > 0 then Continue(SendPageUpdate(env, md, r.(page := r.page.(pageId := Some(results[0])))))
      else if env.space.None? then Next(true, r)
      else Continue(CreatePage(env, env.space.value, md, r))
  }

  /** The catch block (src/UpdatePage.ts:300-313), entered in the state the try block
      threw in. */
  function CatchCreate(env: Env, md: string, run: Run): (f: Flow<bool>)
    ensures f.run.page.(pageId := run.page.pageId) == run.page
    ensures env.space.None? ==> f == Next(true, run)
  {
    if env.space.None? then Next(true, run)
    else Continue(CreatePage(env, env.space.value, md, run))
  }

  /** src/UpdatePage.ts:273-313: a page without an id is looked up by title, and created
      when it is not found or the lookup fails. */
  function FindOrCreate(env: Env, md: string, run: Run): (f: Flow<bool>)
    ensures f.run.page.(pageId := run.page.pageId) == run.page
    ensures !Truthy(run.page.title) ==> f == Next(true, run)
  {
    if !Truthy(run.page.title) then Next(true, run)
    else match TryFind(env, md, run.page.title.value, run)
      case Raised(r) => CatchCreate(env, md, r)
      case Next(stop, r) => Next(stop, r)
  }

  // ---------------------------------------------------------------------
  // updatePage
  // ---------------------------------------------------------------------

  /** The cache file name for a page id: the template string writes an
      absent id as `undefined`. */
  function CacheKey(pageId: Option<string>): string {
    if pageId.None? then "undefined" else pageId.value
  }

  /** `${cachePath}/${key}` is a directory: the cache directory itself, its
      parent, or a directory below it. Reading or writing it throws. Keys
      are not resolved as paths: `cacheDirs` lists every other spelling of a
      directory, such as `./` or `a/..`. */
  predicate NamesDirectory(env: Env, key: string) {
    key == "" || key == "." || key == ".." || key in env.cacheDirs
  }

  /** The cache holds exactly this markup under this key. */
  predicate CacheHit(cache: map<string, string>, key: string, md: string) {
    key in cache && cache[key] == md
  }

  /** The markup `updatePage` works with: rendered, then prefixed. */
  function Markup(env: Env, c: Converted): string {
    AddPrefix(env.config, c.markup)
  }

  /** `updatePage(api, pageData, config, space, force)`. A cache key that
      names a directory exists, so it is read, and the read throws. */
  function UpdatePage(env: Env, page: Page): (o: Outcome)
    ensures ConvertToWikiFormat(env.source, page, env.render).Failure? ==> o == Outcome([], true)
  {
    match ConvertToWikiFormat(env.source, page, env.render)
    case Failure(_) => Outcome([], true)
    case Success(c) =>
      var md := Markup(env, c);
      if NamesDirectory(env, CacheKey(c.page.pageId)) then Outcome([], true)
      else if !env.force && CacheHit(env.cache, CacheKey(c.page.pageId), md) then Outcome([], false)
      else
        var run := Run(c.page, []);
        var f := if Truthy(c.page.pageId) then Continue(SendPageUpdate(env, md, run)) else FindOrCreate(env, md, run);
        Finish(env, f)
  }

  /** src/UpdatePage.ts:316-321: the final fetch of the page, unless the block returned
      early or no id was obtained. */
  function Finish(env: Env, f: Flow<bool>): (o: Outcome)
    ensures Extends(f.run.trace, o.trace)
    ensures f.Raised? ==> o == Outcome(f.run.trace, true)
  {
    match f
    case Raised(r) => Outcome(r.trace, true)
    case Next(stop, r) =>
      if stop || !Truthy(r.page.pageId) then Outcome(r.trace, false)
      else
        var r1 := Issue(r, Fetch(r.page.pageId.value));
        Outcome(r1.trace, env.remote.fetch(r1.trace).None?)
  }

  // ---------------------------------------------------------------------
  // Trace invariants
  // ---------------------------------------------------------------------

  /** From position `n` on, every cache write is immediately followed by the
      update of the same page carrying the same markup. */
  predicate WritesThenUpdatesFrom(t: seq<Op>, n: nat) {
    forall i :: n <= i < |t| && t[i].CacheWrite? ==>
      i + 1 < |t| && t[i + 1].Update? && t[i + 1].pageId == t[i].key && t[i + 1].page.body.value == t[i].markup
  }

  /** From position `n` on, every page is created at version 2. */
  predicate CreatesAtTwoFrom(t: seq<Op>, n: nat) {
    forall i :: n <= i < |t| && t[i].Create? ==> t[i].page.version == Some("2")
  }

  predicate Disciplined(t: seq<Op>, n: nat) {
    WritesThenUpdatesFrom(t, n) && CreatesAtTwoFrom(t, n)
  }

  /** A step from trace `t` to trace `u` only appends, and what it appends is
      disciplined. */
  predicate Step(t: seq<Op>, u: seq<Op>) {
    Extends(t, u) && Disciplined(u, |t|)
  }

  /** A step from `t` to `u` appends neither a search nor a create. */
  predicate QuietStep(t: seq<Op>, u: seq<Op>) {
    Extends(t, u) && NoSearchOrCreateAfter(u, |t|)
  }

  lemma StepJoin(a: seq<Op>, b: seq<Op>, c: seq<Op>)
    requires Step(a, b) && Step(b, c)
    ensures Step(a, c)
  {
    ExtendsTrans(a, b, c);
    assert forall i :: 0 <= i < |b| ==> c[i] == b[i] by {
      assert c[..|b|] == b;
    }
  }

  lemma QuietJoin(a: seq<Op>, b: seq<Op>, c: seq<Op>)
    requires QuietStep(a, b) && QuietStep(b, c)
    ensures QuietStep(a, c)
  {
    ExtendsTrans(a, b, c);
    assert forall i :: 0 <= i < |b| ==> c[i] == b[i] by {
      assert c[..|b|] == b;
    }
  }

  lemma ExtendsTrans(a: seq<Op>, b: seq<Op>, c: seq<Op>)
    requires Extends(a, b) && Extends(b, c)
    ensures Extends(a, c)
  {
    assert c[..|a|] == c[..|b|][..|a|];
  }

  lemma NoStep(t: seq<Op>)
    ensures Step(t, t) && QuietStep(t, t)
  {
  }

  lemma OneOp(t: seq<Op>, op: Op)
    requires !op.CacheWrite? && (op.Create? ==> op.page.version == Some("2"))
    ensures Step(t, t + [op])
    ensures !op.Search? && !op.Create? ==> QuietStep(t, t + [op])
  {
    assert (t + [op])[..|t|] == t;
  }

  lemma WriteThenUpdate(t: seq<Op>, id: string, md: string, p: ConfluencePage)
    requires p.body.value == md
    ensures var u := t + [Fetch(id), CacheWrite(id, md), Update(id, p)];
      Step(t, u) && QuietStep(t, u)
  {
    var u := t + [Fetch(id), CacheWrite(id, md), Update(id, p)];
    assert u[..|t|] == t;
    assert u[|t|] == Fetch(id) && u[|t| + 1] == CacheWrite(id, md) && u[|t| + 2] == Update(id, p);
  }

  /** `sendPageToConfluence` appends one update or one create, and a page
      created from a version-1 scaffold is created at version 2. */
  lemma SendPageStep(env: Env, cp: ConfluencePage, md: string, run: Run)
    requires !Truthy(run.page.pageId) ==> cp.version == Some("1")
    ensures Step(run.trace, SendPage(env, cp, md, run).run.trace)
    ensures Truthy(run.page.pageId) ==> QuietStep(run.trace, SendPage(env, cp, md, run).run.trace)
  {
    if !Truthy(run.page.title) {
      NoStep(run.trace);
    } else if Truthy(run.page.pageId) {
      OneOp(run.trace, Update(run.page.pageId.value, PreparePage(cp, run.page, md)));
    } else {
      VersionOneSentAsTwo(cp, run.page, md);
      OneOp(run.trace, Create(PreparePage(cp, run.page, md)));
    }
  }

  /** The attachment phase appends the listing, then deletes, then uploads. */
  lemma UpdateAttachmentsStep(env: Env, md: string, run: Run)
    ensures var u := UpdateAttachments(env, md, run).run.trace;
      Step(run.trace, u) && QuietStep(run.trace, u) && DeletesBeforeUploads(u[|run.trace|..])
  {
    if !Truthy(run.page.pageId) {
      NoStep(run.trace);
      assert run.trace[|run.trace|..] == [];
    } else {
      var list := ListAttachments(run.page.pageId.value);
      match env.remote.attachments(run.trace + [list])
      case None =>
        OneOp(run.trace, list);
        assert (run.trace + [list])[|run.trace|..] == [list];
      case Some(remotes) =>
        var matched := MatchAll(ExtractAttachments(env.files, run.page.file, md), remotes);
        var deletes := DeleteOps(OutOfDate(matched, remotes));
        var uploads := UploadOps(run.page.pageId.value, ToUpload(matched, env.force));
        AttachmentOps(env, md, run, remotes);
        AttachmentPhaseShape(run.trace, list, deletes, uploads);
    }
  }

  /** Fetching and sending appends the fetch, and then either nothing or the
      cache write immediately followed by the update. */
  lemma FetchAndSendStep(env: Env, rewritten: string, run: Run)
    requires Truthy(run.page.pageId) && Truthy(run.page.title)
    ensures Step(run.trace, FetchAndSend(env, rewritten, run).run.trace)
    ensures QuietStep(run.trace, FetchAndSend(env, rewritten, run).run.trace)
  {
    var id := run.page.pageId.value;
    var r1 := Issue(run, Fetch(id));
    OneOp(run.trace, Fetch(id));
    match env.remote.fetch(r1.trace)
    case None =>
    case Some(cp) =>
      if (env.force || DynamicIds.IsRemoteUpdateRequired(rewritten, cp.body.value)) && !NamesDirectory(env, id) {
        var r2 := Issue(r1, CacheWrite(id, rewritten));
        var p := PreparePage(cp, run.page, rewritten);
        assert SendPage(env, cp, rewritten, r2).run.trace == r2.trace + [Update(id, p)];
        assert r2.trace + [Update(id, p)] == run.trace + [Fetch(id), CacheWrite(id, rewritten), Update(id, p)];
        WriteThenUpdate(run.trace, id, rewritten, p);
      }
  }

  lemma SendPageUpdateStep(env: Env, md: string, run: Run)
    requires Truthy(run.page.title)
    ensures Step(run.trace, SendPageUpdate(env, md, run).run.trace)
    ensures QuietStep(run.trace, SendPageUpdate(env, md, run).run.trace)
  {
    UpdateAttachmentsStep(env, md, run);
    if Truthy(run.page.pageId) {
      var a := UpdateAttachments(env, md, run);
      if a.Next? {
        FetchAndSendStep(env, a.value, a.run);
        StepJoin(run.trace, a.run.trace, FetchAndSend(env, a.value, a.run).run.trace);
        QuietJoin(run.trace, a.run.trace, FetchAndSend(env, a.value, a.run).run.trace);
      }
    }
  }

  lemma CreatePageStep(env: Env, space: Space, md: string, run: Run)
    requires Truthy(run.page.title)
    ensures Step(run.trace, CreatePage(env, space, md, run).run.trace)
  {
    var s := SendPage(env, NewBlankPage(space), md, run);
    SendPageStep(env, NewBlankPage(space), md, run);
    if s.Next? && Truthy(s.value) {
      var r := s.run.(page := s.run.page.(pageId := s.value));
      SendPageUpdateStep(env, md, r);
      StepJoin(run.trace, s.run.trace, SendPageUpdate(env, md, r).run.trace);
    }
  }

  lemma TryFindStep(env: Env, md: string, title: string, run: Run)
    requires Truthy(run.page.title)
    ensures Step(run.trace, TryFind(env, md, title, run).run.trace)
  {
    var r := Issue(run, Search(title, env.config.spaceKey));
    OneOp(run.trace, Search(title, env.config.spaceKey));
    match env.remote.search(r.trace)
    case None =>
    case Some(results) =>
      if |results| > 0 {
        var r1 := r.(page := r.page.(pageId := Some(results[0])));
        SendPageUpdateStep(env, md, r1);
        StepJoin(run.trace, r.trace, SendPageUpdate(env, md, r1).run.trace);
      } else if env.space.Some? {
        CreatePageStep(env, env.space.value, md, r);
        StepJoin(run.trace, r.trace, CreatePage(env, env.space.value, md, r).run.trace);
      }
  }

  lemma CatchCreateStep(env: Env, md: string, run: Run)
    requires Truthy(run.page.title)
    ensures Step(run.trace, CatchCreate(env, md, run).run.trace)
  {
    if env.space.None? {
      NoStep(run.trace);
    } else {
      CreatePageStep(env, env.space.value, md, run);
    }
  }

  lemma FindOrCreateStep(env: Env, md: string, run: Run)
    requires Truthy(run.page.title)
    ensures Step(run.trace, FindOrCreate(env, md, run).run.trace)
  {
    var t := TryFind(env, md, run.page.title.value, run);
    TryFindStep(env, md, run.page.title.value, run);
    if t.Raised? {
      CatchCreateStep(env, md, t.run);
      StepJoin(run.trace, t.run.trace, CatchCreate(env, md, t.run).run.trace);
    }
  }

  lemma FinishStep(env: Env, f: Flow<bool>)
    ensures Step(f.run.trace, Finish(env, f).trace)
    ensures QuietStep(f.run.trace, Finish(env, f).trace)
  {
    if f.Next? && !f.value && Truthy(f.run.page.pageId) {
      OneOp(f.run.trace, Fetch(f.run.page.pageId.value));
    } else {
      NoStep(f.run.trace);
    }
  }

  /** In every run, each cache write is immediately followed by the update
      of the same page with the same markup (the cache is written before the
      update is sent), and every page created is created at version 2. */
  lemma UpdatePageDisciplined(env: Env, page: Page)
    ensures WritesThenUpdatesFrom(UpdatePage(env, page).trace, 0)
    ensures CreatesAtTwoFrom(UpdatePage(env, page).trace, 0)
  {
    match ConvertToWikiFormat(env.source, page, env.render)
    case Failure(_) =>
    case Success(c) =>
      var md := Markup(env, c);
      if !NamesDirectory(env, CacheKey(c.page.pageId)) && !(!env.force && CacheHit(env.cache, CacheKey(c.page.pageId), md)) {
        var run := Run(c.page, []);
        var f := if Truthy(c.page.pageId) then Continue(SendPageUpdate(env, md, run)) else FindOrCreate(env, md, run);
        if Truthy(c.page.pageId) {
          SendPageUpdateStep(env, md, run);
        } else {
          FindOrCreateStep(env, md, run);
        }
        FinishStep(env, f);
        StepJoin([], f.run.trace, Finish(env, f).trace);
        assert UpdatePage(env, page) == Finish(env, f);
      }
  }

  /** A page configured with an id goes straight to the update: no search and
      no create is ever issued for it. */
  lemma ExplicitIdNeverSearchesOrCreates(env: Env, page: Page)
    requires Truthy(page.pageId)
    ensures NoSearchOrCreateAfter(UpdatePage(env, page).trace, 0)
  {
    match ConvertToWikiFormat(env.source, page, env.render)
    case Failure(_) =>
    case Success(c) =>
      var md := Markup(env, c);
      if !NamesDirectory(env, CacheKey(c.page.pageId)) && !(!env.force && CacheHit(env.cache, CacheKey(c.page.pageId), md)) {
        var run := Run(c.page, []);
        var f := Continue(SendPageUpdate(env, md, run));
        SendPageUpdateStep(env, md, run);
        FinishStep(env, f);
        QuietJoin([], f.run.trace, Finish(env, f).trace);
        assert UpdatePage(env, page) == Finish(env, f);
      }
  }

  // ---------------------------------------------------------------------
  // The decisions
  // ---------------------------------------------------------------------

  /** Without `force`, a cache file under the page's id (as configured)
      holding exactly the markup stops the run before any remote call. */
  lemma CacheHitSkipsRemote(env: Env, page: Page, c: Converted)
    requires ConvertToWikiFormat(env.source, page, env.render) == Success(c)
    requires !NamesDirectory(env, CacheKey(page.pageId)) && !env.force
    requires CacheHit(env.cache, CacheKey(page.pageId), Markup(env, c))
    ensures UpdatePage(env, page) == Outcome([], false)
  {
    assert c.page.pageId == page.pageId;
  }

  /** The cache file is written with the markup after its attachment
      names are rewritten, but read back against the markup before: the
      entry a run leaves hits only when the rewrite changed nothing. */
  lemma WrittenEntryHitsIff(cache: map<string, string>, id: string, md: string)
    ensures CacheHit(cache[id := RewriteReferences(md)], id, md) <==> RewriteReferences(md) == md
  {
  }

  /** The next run over the same page, after this one wrote its cache
      entry, stops at the cache read exactly when the rewrite left the
      markup as it was; otherwise it lists the attachments again. */
  lemma RerunAfterWrite(env: Env, page: Page, c: Converted)
    requires ConvertToWikiFormat(env.source, page, env.render) == Success(c)
    requires Truthy(page.pageId) && !NamesDirectory(env, page.pageId.value)
    ensures var md := Markup(env, c);
      var next := env.(cache := env.cache[page.pageId.value := RewriteReferences(md)], force := false);
      (UpdatePage(next, page) == Outcome([], false) <==> RewriteReferences(md) == md)
      && (RewriteReferences(md) != md ==>
            |UpdatePage(next, page).trace| > 0 && UpdatePage(next, page).trace[0] == ListAttachments(page.pageId.value))
  {
    var md := Markup(env, c);
    var id := page.pageId.value;
    var next := env.(cache := env.cache[id := RewriteReferences(md)], force := false);
    RerunStart(env, page, c);
    if RewriteReferences(md) != md {
      var run := Run(c.page, []);
      SendPageUpdateLists(next, md, run);
      assert run.trace + [ListAttachments(id)] == [ListAttachments(id)];
      FinishKeeps(next, Continue(SendPageUpdate(next, md, run)), [ListAttachments(id)]);
      ExtendsAt([ListAttachments(id)], UpdatePage(next, page).trace);
    }
  }

  /** How the next run begins: a cache hit when the rewrite changed
      nothing, the update of the page under its id otherwise. */
  lemma RerunStart(env: Env, page: Page, c: Converted)
    requires ConvertToWikiFormat(env.source, page, env.render) == Success(c)
    requires Truthy(page.pageId) && !NamesDirectory(env, page.pageId.value)
    ensures c.page.pageId == page.pageId && Truthy(c.page.title)
    ensures var md := Markup(env, c);
      var next := env.(cache := env.cache[page.pageId.value := RewriteReferences(md)], force := false);
      UpdatePage(next, page) ==
        if RewriteReferences(md) == md then Outcome([], false)
        else Finish(next, Continue(SendPageUpdate(next, md, Run(c.page, []))))
  {
    assert c.page.pageId == page.pageId;
    var md := Markup(env, c);
    var next := env.(cache := env.cache[page.pageId.value := RewriteReferences(md)], force := false);
    assert ConvertToWikiFormat(next.source, page, next.render) == Success(c);
    assert Markup(next, c) == md && !NamesDirectory(next, page.pageId.value);
    WrittenEntryHitsIff(env.cache, page.pageId.value, md);
    if RewriteReferences(md) == md {
      CacheHitSkipsRemote(next, page, c);
    } else {
      UpdateById(next, page, c);
    }
  }

  /** With an id, no directory in the way and no cache hit, `updatePage`
      sends the update under that id and then fetches the page. */
  lemma UpdateById(env: Env, page: Page, c: Converted)
    requires ConvertToWikiFormat(env.source, page, env.render) == Success(c)
    requires Truthy(page.pageId) && !NamesDirectory(env, page.pageId.value)
    requires env.force || !CacheHit(env.cache, page.pageId.value, Markup(env, c))
    ensures UpdatePage(env, page) == Finish(env, Continue(SendPageUpdate(env, Markup(env, c), Run(c.page, []))))
  {
    assert c.page.pageId == page.pageId;
  }

  /** A page without an id reads the cache under the name `undefined`,
      shared by every such page, so a stale entry there silences the run. */
  lemma CacheReadUnderUndefined(env: Env, page: Page, c: Converted)
    requires ConvertToWikiFormat(env.source, page, env.render) == Success(c)
    requires page.pageId.None? && !env.force && "undefined" !in env.cacheDirs
    requires "undefined" in env.cache && env.cache["undefined"] == Markup(env, c)
    ensures UpdatePage(env, page) == Outcome([], false)
  {
    CacheHitSkipsRemote(env, page, c);
  }

  /** A configured id whose cache path is a directory makes the cache read
      throw before any remote call. */
  lemma DirectoryKeyThrows(env: Env, page: Page)
    requires NamesDirectory(env, CacheKey(page.pageId))
    ensures UpdatePage(env, page) == Outcome([], true)
  {
  }

  /** The ids `""`, `.` and `..` name the cache directory or its parent, so
      such a page never gets past the cache read. */
  lemma DotIdsThrow(env: Env, page: Page)
    requires page.pageId == Some("") || page.pageId == Some(".") || page.pageId == Some("..")
    ensures UpdatePage(env, page) == Outcome([], true)
  {
    DirectoryKeyThrows(env, page);
  }

  /** The inputs for which `updatePage` renders and goes on to search: no
      id configured, no directory named `undefined` and no cache hit under
      `undefined`. */
  predicate Searches(env: Env, page: Page, c: Converted) {
    ConvertToWikiFormat(env.source, page, env.render) == Success(c)
    && page.pageId.None? && !NamesDirectory(env, "undefined")
    && (env.force || !CacheHit(env.cache, "undefined", Markup(env, c)))
  }

  /** The search issued for a page without an id. */
  function SearchOp(env: Env, c: Converted): Op
    requires Truthy(c.page.title)
  {
    Search(c.page.title.value, env.config.spaceKey)
  }

  lemma SearchStart(env: Env, page: Page, c: Converted)
    requires Searches(env, page, c)
    ensures Truthy(c.page.title) && c.page.pageId.None?
    ensures UpdatePage(env, page) == Finish(env, FindOrCreate(env, Markup(env, c), Run(c.page, [])))
    ensures FindOrCreate(env, Markup(env, c), Run(c.page, [])) ==
      match TryFind(env, Markup(env, c), c.page.title.value, Run(c.page, []))
      case Raised(r) => CatchCreate(env, Markup(env, c), r)
      case Next(stop, r) => Next(stop, r)
  {
  }

  /** When the page is neither found nor creatable (no space), the run ends
      after the search without error, whether the search answered with no
      results or threw. */
  lemma NotFoundWithoutSpace(env: Env, page: Page, c: Converted)
    requires Searches(env, page, c) && env.space.None?
    requires Truthy(c.page.title)
    requires env.remote.search([SearchOp(env, c)]) in {None, Some([])}
    ensures UpdatePage(env, page) == Outcome([SearchOp(env, c)], false)
  {
    SearchStart(env, page, c);
    var run := Run(c.page, []);
    assert Issue(run, SearchOp(env, c)).trace == [SearchOp(env, c)];
  }

  /** Anything a run has issued stays at the front of the outcome. */
  lemma FinishKeeps(env: Env, f: Flow<bool>, p: seq<Op>)
    requires Extends(p, f.run.trace)
    ensures Extends(p, Finish(env, f).trace)
  {
    ExtendsTrans(p, f.run.trace, Finish(env, f).trace);
  }

  lemma ExtendsAt(p: seq<Op>, t: seq<Op>)
    requires Extends(p, t)
    ensures forall i :: 0 <= i < |p| ==> t[i] == p[i]
  {
    assert forall i :: 0 <= i < |p| ==> t[i] == t[..|p|][i];
  }

  /** The catch block only appends to the state the try block left. */
  lemma FindOrCreateKeeps(env: Env, md: string, run: Run, p: seq<Op>)
    requires Truthy(run.page.title)
    requires Extends(p, TryFind(env, md, run.page.title.value, run).run.trace)
    ensures Extends(p, FindOrCreate(env, md, run).run.trace)
  {
    var t := TryFind(env, md, run.page.title.value, run);
    if t.Raised? {
      CatchCreateStep(env, md, t.run);
      ExtendsTrans(p, t.run.trace, CatchCreate(env, md, t.run).run.trace);
    }
  }

  /** With an id, `sendPageUpdate` starts with the attachment listing. */
  lemma SendPageUpdateLists(env: Env, md: string, run: Run)
    requires Truthy(run.page.pageId) && Truthy(run.page.title)
    ensures Extends(run.trace + [ListAttachments(run.page.pageId.value)], SendPageUpdate(env, md, run).run.trace)
  {
    var a := UpdateAttachments(env, md, run);
    if a.Next? {
      FetchAndSendStep(env, a.value, a.run);
      ExtendsTrans(run.trace + [ListAttachments(run.page.pageId.value)], a.run.trace, FetchAndSend(env, a.value, a.run).run.trace);
    }
  }

  /** A search with results hands the first one to `sendPageUpdate`. */
  lemma TryFindFound(env: Env, md: string, run: Run, results: seq<string>)
    requires Truthy(run.page.title)
    requires env.remote.search(run.trace + [Search(run.page.title.value, env.config.spaceKey)]) == Some(results)
    requires |results| > 0
    ensures var found := Issue(run, Search(run.page.title.value, env.config.spaceKey)).(page := run.page.(pageId := Some(results[0])));
      TryFind(env, md, run.page.title.value, run) == Continue(SendPageUpdate(env, md, found))
  {
  }

  /** A search that throws is where the try block stops. */
  lemma TryFindThrows(env: Env, md: string, run: Run)
    requires Truthy(run.page.title)
    requires env.remote.search(run.trace + [Search(run.page.title.value, env.config.spaceKey)]).None?
    ensures TryFind(env, md, run.page.title.value, run) == Raised(Issue(run, Search(run.page.title.value, env.config.spaceKey)))
  {
  }

  /** Sending the scaffold for a page without an id issues its create first. */
  lemma CreatePageCreates(env: Env, space: Space, md: string, run: Run)
    requires Truthy(run.page.title) && !Truthy(run.page.pageId)
    ensures Extends(run.trace + [Create(PreparePage(NewBlankPage(space), run.page, md))], CreatePage(env, space, md, run).run.trace)
  {
    var s := SendPage(env, NewBlankPage(space), md, run);
    var head := run.trace + [Create(PreparePage(NewBlankPage(space), run.page, md))];
    assert s.run.trace == head;
    if s.Next? && Truthy(s.value) {
      var r := s.run.(page := s.run.page.(pageId := s.value));
      SendPageUpdateStep(env, md, r);
    }
  }

  /** Sending the scaffold for a page that already has an id is one update
      of that page, whatever the reply. */
  lemma CreatePageUpdates(env: Env, space: Space, md: string, run: Run)
    requires Truthy(run.page.title) && Truthy(run.page.pageId)
    ensures CreatePage(env, space, md, run).run.trace
      == run.trace + [Update(run.page.pageId.value, PreparePage(NewBlankPage(space), run.page, md))]
  {
  }

  /** What the search-and-create block issues first is what the run
      issues first. */
  lemma SearchRunPrefix(env: Env, page: Page, c: Converted, p: seq<Op>)
    requires Searches(env, page, c)
    requires Extends(p, FindOrCreate(env, Markup(env, c), Run(c.page, [])).run.trace)
    ensures |p| <= |UpdatePage(env, page).trace|
    ensures forall i :: 0 <= i < |p| ==> UpdatePage(env, page).trace[i] == p[i]
  {
    SearchStart(env, page, c);
    var f := FindOrCreate(env, Markup(env, c), Run(c.page, []));
    FinishKeeps(env, f, p);
    ExtendsAt(p, Finish(env, f).trace);
  }

  /** The first two operations of the block are the first two of the run. */
  lemma SearchRunStartsWith(env: Env, page: Page, c: Converted, a: Op, b: Op)
    requires Searches(env, page, c)
    requires Extends([a, b], FindOrCreate(env, Markup(env, c), Run(c.page, [])).run.trace)
    ensures var t := UpdatePage(env, page).trace; |t| >= 2 && t[0] == a && t[1] == b
  {
    SearchRunPrefix(env, page, c, [a, b]);
  }

  /** The first three operations of the block are the first three of the
      run. */
  lemma SearchRunStartsWith3(env: Env, page: Page, c: Converted, a: Op, b: Op, d: Op)
    requires Searches(env, page, c)
    requires Extends([a, b, d], FindOrCreate(env, Markup(env, c), Run(c.page, [])).run.trace)
    ensures var t := UpdatePage(env, page).trace; |t| >= 3 && t[0] == a && t[1] == b && t[2] == d
  {
    SearchRunPrefix(env, page, c, [a, b, d]);
  }

  /** Search failure, at the level of the block: the scaffold is created. */
  lemma SearchFailureFlow(env: Env, md: string, run: Run, space: Space)
    requires Truthy(run.page.title) && !Truthy(run.page.pageId) && env.space == Some(space)
    requires env.remote.search(run.trace + [Search(run.page.title.value, env.config.spaceKey)]).None?
    ensures Extends(run.trace + [Search(run.page.title.value, env.config.spaceKey), Create(PreparePage(NewBlankPage(space), run.page, md))],
                    FindOrCreate(env, md, run).run.trace)
  {
    TryFindThrows(env, md, run);
    var r := Issue(run, Search(run.page.title.value, env.config.spaceKey));
    CreatePageCreates(env, space, md, r);
    assert r.trace + [Create(PreparePage(NewBlankPage(space), run.page, md))]
      == run.trace + [Search(run.page.title.value, env.config.spaceKey), Create(PreparePage(NewBlankPage(space), run.page, md))];
  }

  /** No results, at the level of the block: the scaffold is created. */
  lemma NoResultsFlow(env: Env, md: string, run: Run, space: Space)
    requires Truthy(run.page.title) && !Truthy(run.page.pageId) && env.space == Some(space)
    requires env.remote.search(run.trace + [Search(run.page.title.value, env.config.spaceKey)]) == Some([])
    ensures Extends(run.trace + [Search(run.page.title.value, env.config.spaceKey), Create(PreparePage(NewBlankPage(space), run.page, md))],
                    FindOrCreate(env, md, run).run.trace)
  {
    var r := Issue(run, Search(run.page.title.value, env.config.spaceKey));
    assert TryFind(env, md, run.page.title.value, run) == Continue(CreatePage(env, space, md, r));
    CreatePageCreates(env, space, md, r);
    assert r.trace + [Create(PreparePage(NewBlankPage(space), run.page, md))]
      == run.trace + [Search(run.page.title.value, env.config.spaceKey), Create(PreparePage(NewBlankPage(space), run.page, md))];
    FindOrCreateKeeps(env, md, run, run.trace + [Search(run.page.title.value, env.config.spaceKey), Create(PreparePage(NewBlankPage(space), run.page, md))]);
  }

  /** A found page, at the level of the block: its attachments are listed. */
  lemma FirstResultFlow(env: Env, md: string, run: Run, results: seq<string>)
    requires Truthy(run.page.title)
    requires env.remote.search(run.trace + [Search(run.page.title.value, env.config.spaceKey)]) == Some(results)
    requires |results| > 0 && results[0] != ""
    ensures Extends(run.trace + [Search(run.page.title.value, env.config.spaceKey), ListAttachments(results[0])],
                    FindOrCreate(env, md, run).run.trace)
  {
    TryFindFound(env, md, run, results);
    var found := Issue(run, Search(run.page.title.value, env.config.spaceKey)).(page := run.page.(pageId := Some(results[0])));
    SendPageUpdateLists(env, md, found);
    assert found.trace + [ListAttachments(results[0])]
      == run.trace + [Search(run.page.title.value, env.config.spaceKey), ListAttachments(results[0])];
    FindOrCreateKeeps(env, md, run, run.trace + [Search(run.page.title.value, env.config.spaceKey), ListAttachments(results[0])]);
  }

  /** A found page whose listing throws, at the level of the block: the
      catch block updates it with the scaffold. */
  lemma FoundFailureFlow(env: Env, md: string, run: Run, id: string, space: Space)
    requires Truthy(run.page.title) && env.space == Some(space) && id != ""
    requires env.remote.search(run.trace + [Search(run.page.title.value, env.config.spaceKey)]) == Some([id])
    requires env.remote.attachments(run.trace + [Search(run.page.title.value, env.config.spaceKey), ListAttachments(id)]).None?
    ensures FindOrCreate(env, md, run).run.trace
      == run.trace + [Search(run.page.title.value, env.config.spaceKey), ListAttachments(id),
                      Update(id, PreparePage(NewBlankPage(space), run.page.(pageId := Some(id)), md))]
  {
    var search := Search(run.page.title.value, env.config.spaceKey);
    TryFindFound(env, md, run, [id]);
    var found := Issue(run, search).(page := run.page.(pageId := Some(id)));
    assert found.trace + [ListAttachments(id)] == run.trace + [search, ListAttachments(id)];
    var raised := Issue(found, ListAttachments(id));
    ListingThrows(env, md, found, raised);
    FindOrCreateCatches(env, md, run, raised);
    CreatePageUpdates(env, space, md, raised);
  }

  /** A listing that throws ends `sendPageUpdate` right after it. */
  lemma ListingThrows(env: Env, md: string, run: Run, raised: Run)
    requires Truthy(run.page.pageId)
    requires raised == Issue(run, ListAttachments(run.page.pageId.value))
    requires env.remote.attachments(raised.trace).None?
    ensures SendPageUpdate(env, md, run) == Raised(raised)
  {
  }

  /** A fetch that throws ends `sendPageUpdate` right after it, behind the
      listing and the attachment operations. */
  lemma FetchThrows(env: Env, md: string, run: Run, remotes: seq<RemoteAttachment>)
    requires Truthy(run.page.pageId)
    requires env.remote.attachments(run.trace + [ListAttachments(run.page.pageId.value)]) == Some(remotes)
    requires env.remote.fetch(UpdateAttachments(env, md, run).run.trace + [Fetch(run.page.pageId.value)]).None?
    ensures SendPageUpdate(env, md, run)
      == Raised(Issue(UpdateAttachments(env, md, run).run, Fetch(run.page.pageId.value)))
  {
    AttachmentOps(env, md, run, remotes);
  }

  /** An update that throws ends `sendPageUpdate` right after it, behind
      the fetch and the cache write. */
  lemma UpdateThrows(env: Env, md: string, run: Run, remotes: seq<RemoteAttachment>, cp: ConfluencePage)
    requires Truthy(run.page.pageId) && Truthy(run.page.title)
    requires env.remote.attachments(run.trace + [ListAttachments(run.page.pageId.value)]) == Some(remotes)
    requires env.remote.fetch(UpdateAttachments(env, md, run).run.trace + [Fetch(run.page.pageId.value)]) == Some(cp)
    requires env.force || DynamicIds.IsRemoteUpdateRequired(RewriteReferences(md), cp.body.value)
    requires !NamesDirectory(env, run.page.pageId.value)
    requires var id := run.page.pageId.value;
      !env.remote.update(UpdateAttachments(env, md, run).run.trace
        + [Fetch(id), CacheWrite(id, RewriteReferences(md)), Update(id, PreparePage(cp, run.page, RewriteReferences(md)))])
    ensures var id := run.page.pageId.value; var a := UpdateAttachments(env, md, run).run;
      SendPageUpdate(env, md, run)
        == Raised(a.(trace := a.trace + [Fetch(id), CacheWrite(id, RewriteReferences(md)),
                                         Update(id, PreparePage(cp, run.page, RewriteReferences(md)))]))
  {
    var a := UpdateAttachments(env, md, run);
    AttachmentOps(env, md, run, remotes);
    assert SendPageUpdate(env, md, run) == FetchAndSend(env, RewriteReferences(md), a.run);
    FetchAndSendUpdateThrows(env, RewriteReferences(md), a.run, cp);
  }

  lemma FetchAndSendUpdateThrows(env: Env, rewritten: string, run: Run, cp: ConfluencePage)
    requires Truthy(run.page.pageId) && Truthy(run.page.title)
    requires env.remote.fetch(run.trace + [Fetch(run.page.pageId.value)]) == Some(cp)
    requires env.force || DynamicIds.IsRemoteUpdateRequired(rewritten, cp.body.value)
    requires !NamesDirectory(env, run.page.pageId.value)
    requires var id := run.page.pageId.value;
      !env.remote.update(run.trace + [Fetch(id), CacheWrite(id, rewritten), Update(id, PreparePage(cp, run.page, rewritten))])
    ensures var id := run.page.pageId.value;
      FetchAndSend(env, rewritten, run)
        == Raised(run.(trace := run.trace + [Fetch(id), CacheWrite(id, rewritten), Update(id, PreparePage(cp, run.page, rewritten))]))
  {
    var id := run.page.pageId.value;
    var r2 := Issue(Issue(run, Fetch(id)), CacheWrite(id, rewritten));
    assert r2.trace + [Update(id, PreparePage(cp, run.page, rewritten))]
      == run.trace + [Fetch(id), CacheWrite(id, rewritten), Update(id, PreparePage(cp, run.page, rewritten))];
  }

  /** Whichever call makes the update of a found page throw, the catch
      block sends the scaffold as an update of the found page. */
  lemma FoundRaisedFlow(env: Env, md: string, run: Run, results: seq<string>, space: Space, raised: Run)
    requires Truthy(run.page.title) && env.space == Some(space)
    requires env.remote.search(run.trace + [Search(run.page.title.value, env.config.spaceKey)]) == Some(results)
    requires |results| > 0
    requires SendPageUpdate(env, md, Issue(run, Search(run.page.title.value, env.config.spaceKey)).(page := run.page.(pageId := Some(results[0]))))
      == Raised(raised)
    ensures FindOrCreate(env, md, run).run.trace
      == raised.trace + [Update(results[0], PreparePage(NewBlankPage(space), run.page.(pageId := Some(results[0])), md))]
  {
    var found := Issue(run, Search(run.page.title.value, env.config.spaceKey)).(page := run.page.(pageId := Some(results[0])));
    TryFindFound(env, md, run, results);
    assert raised.page == found.page && Truthy(found.page.pageId);
    FindOrCreateCatches(env, md, run, raised);
    CreatePageUpdates(env, space, md, raised);
  }

  /** When the try block throws, the block continues with the catch block
      from the state the try block reached. */
  lemma FindOrCreateCatches(env: Env, md: string, run: Run, raised: Run)
    requires Truthy(run.page.title)
    requires TryFind(env, md, run.page.title.value, run) == Raised(raised)
    ensures FindOrCreate(env, md, run) == CatchCreate(env, md, raised)
  {
  }

  /** A search that throws leads to the creation of the blank scaffold,
      sent at version 2 under the page's title. */
  lemma SearchFailureCreates(env: Env, page: Page, c: Converted, space: Space)
    requires Searches(env, page, c) && env.space == Some(space)
    requires Truthy(c.page.title)
    requires env.remote.search([SearchOp(env, c)]).None?
    ensures var o := UpdatePage(env, page);
      |o.trace| >= 2 && o.trace[0] == SearchOp(env, c)
      && o.trace[1] == Create(PreparePage(NewBlankPage(space), c.page, Markup(env, c)))
      && o.trace[1].page.version == Some("2") && o.trace[1].page.title == c.page.title.value
  {
    var run := Run(c.page, []);
    var create := Create(PreparePage(NewBlankPage(space), c.page, Markup(env, c)));
    assert run.trace + [SearchOp(env, c)] == [SearchOp(env, c)];
    SearchFailureFlow(env, Markup(env, c), run, space);
    assert run.trace + [SearchOp(env, c), create] == [SearchOp(env, c), create];
    SearchRunStartsWith(env, page, c, SearchOp(env, c), create);
    BlankPageSentAtVersionTwo(space, c.page, Markup(env, c));
  }

  /** A search without results, with a space to create in, leads to the
      creation of the blank scaffold, sent at version 2 under the page's
      title. */
  lemma NoResultsCreates(env: Env, page: Page, c: Converted, space: Space)
    requires Searches(env, page, c) && env.space == Some(space)
    requires Truthy(c.page.title)
    requires env.remote.search([SearchOp(env, c)]) == Some([])
    ensures var o := UpdatePage(env, page);
      |o.trace| >= 2 && o.trace[0] == SearchOp(env, c)
      && o.trace[1] == Create(PreparePage(NewBlankPage(space), c.page, Markup(env, c)))
      && o.trace[1].page.version == Some("2") && o.trace[1].page.title == c.page.title.value
  {
    var run := Run(c.page, []);
    var create := Create(PreparePage(NewBlankPage(space), c.page, Markup(env, c)));
    assert run.trace + [SearchOp(env, c)] == [SearchOp(env, c)];
    NoResultsFlow(env, Markup(env, c), run, space);
    assert run.trace + [SearchOp(env, c), create] == [SearchOp(env, c), create];
    SearchRunStartsWith(env, page, c, SearchOp(env, c), create);
    BlankPageSentAtVersionTwo(space, c.page, Markup(env, c));
  }

  /** The first search result's id is adopted and its attachments listed. */
  lemma FirstResultUsed(env: Env, page: Page, c: Converted, results: seq<string>)
    requires Searches(env, page, c)
    requires Truthy(c.page.title)
    requires env.remote.search([SearchOp(env, c)]) == Some(results)
    requires |results| > 0 && results[0] != ""
    ensures var o := UpdatePage(env, page);
      |o.trace| >= 2 && o.trace[0] == SearchOp(env, c) && o.trace[1] == ListAttachments(results[0])
  {
    var run := Run(c.page, []);
    assert run.trace + [SearchOp(env, c)] == [SearchOp(env, c)];
    FirstResultFlow(env, Markup(env, c), run, results);
    assert run.trace + [SearchOp(env, c), ListAttachments(results[0])] == [SearchOp(env, c), ListAttachments(results[0])];
    SearchRunStartsWith(env, page, c, SearchOp(env, c), ListAttachments(results[0]));
  }

  /** The try block also covers the update of a found page: when that update
      throws (here, at the attachment listing), the catch block sends the
      blank scaffold, and since the page now has an id it goes out as an
      update of the found page, at version 2. */
  lemma FoundPageFailureUpdatesScaffold(env: Env, page: Page, c: Converted, id: string, space: Space)
    requires Searches(env, page, c) && env.space == Some(space)
    requires Truthy(c.page.title)
    requires env.remote.search([SearchOp(env, c)]) == Some([id]) && id != ""
    requires env.remote.attachments([SearchOp(env, c), ListAttachments(id)]).None?
    ensures var o := UpdatePage(env, page);
      var scaffold := PreparePage(NewBlankPage(space), c.page.(pageId := Some(id)), Markup(env, c));
      |o.trace| >= 3
      && o.trace[0] == SearchOp(env, c) && o.trace[1] == ListAttachments(id) && o.trace[2] == Update(id, scaffold)
      && scaffold.version == Some("2") && scaffold.body.value == Markup(env, c)
  {
    var run := Run(c.page, []);
    var scaffold := PreparePage(NewBlankPage(space), c.page.(pageId := Some(id)), Markup(env, c));
    var three := [SearchOp(env, c), ListAttachments(id), Update(id, scaffold)];
    assert run.trace + [SearchOp(env, c)] == [SearchOp(env, c)];
    assert run.trace + [SearchOp(env, c), ListAttachments(id)] == [SearchOp(env, c), ListAttachments(id)];
    FoundFailureFlow(env, Markup(env, c), run, id, space);
    assert run.trace + three == three;
    SearchRunStartsWith3(env, page, c, SearchOp(env, c), ListAttachments(id), Update(id, scaffold));
    BlankPageSentAtVersionTwo(space, c.page.(pageId := Some(id)), Markup(env, c));
  }

  /** The try block also covers the update of a found page: whether the
      listing, the fetch, the cache write or the update throws, the catch
      block then sends the blank scaffold as an update of the found page,
      at version 2, holding the markup. */
  lemma FoundPageRaiseUpdatesScaffold(env: Env, page: Page, c: Converted, results: seq<string>, space: Space, raised: Run)
    requires Searches(env, page, c) && env.space == Some(space)
    requires Truthy(c.page.title)
    requires env.remote.search([SearchOp(env, c)]) == Some(results) && |results| > 0
    requires SendPageUpdate(env, Markup(env, c), Run(c.page.(pageId := Some(results[0])), [SearchOp(env, c)])) == Raised(raised)
    ensures var scaffold := PreparePage(NewBlankPage(space), c.page.(pageId := Some(results[0])), Markup(env, c));
      Extends(raised.trace + [Update(results[0], scaffold)], UpdatePage(env, page).trace)
      && scaffold.version == Some("2") && scaffold.body.value == Markup(env, c)
  {
    var run := Run(c.page, []);
    var md := Markup(env, c);
    var scaffold := PreparePage(NewBlankPage(space), c.page.(pageId := Some(results[0])), md);
    var p := raised.trace + [Update(results[0], scaffold)];
    assert run.trace + [SearchOp(env, c)] == [SearchOp(env, c)];
    assert Issue(run, SearchOp(env, c)).(page := run.page.(pageId := Some(results[0])))
      == Run(c.page.(pageId := Some(results[0])), [SearchOp(env, c)]);
    FoundRaisedFlow(env, md, run, results, space, raised);
    ExtendsSelf(p);
    SearchRunPrefix(env, page, c, p);
    PrefixExtends(p, UpdatePage(env, page).trace);
    BlankPageSentAtVersionTwo(space, c.page.(pageId := Some(results[0])), md);
  }

  lemma ExtendsSelf(p: seq<Op>)
    ensures Extends(p, p)
  {
  }

  lemma PrefixExtends(p: seq<Op>, t: seq<Op>)
    requires |p| <= |t| && forall i :: 0 <= i < |p| ==> t[i] == p[i]
    ensures Extends(p, t)
  {
  }

  /** A forced run on a found page writes its cache file under the found id,
      holding the rewritten markup, while the read at the start used the key
      `undefined`: the entry written is not the one a later run without an
      id reads. */
  lemma FoundPageCachedUnderId(env: Env, page: Page, c: Converted, results: seq<string>,
                               remotes: seq<RemoteAttachment>, cp: ConfluencePage)
    requires Searches(env, page, c) && env.force
    requires Truthy(c.page.title)
    requires env.remote.search([SearchOp(env, c)]) == Some(results)
    requires |results| > 0 && results[0] != "" && !NamesDirectory(env, results[0])
    requires forall t :: env.remote.attachments(t) == Some(remotes)
    requires forall t :: env.remote.fetch(t) == Some(cp)
    ensures CacheWrite(results[0], RewriteReferences(Markup(env, c))) in UpdatePage(env, page).trace
  {
    var md := Markup(env, c);
    var run := Run(c.page, []);
    assert run.trace + [SearchOp(env, c)] == [SearchOp(env, c)];
    assert run.trace + [SearchOp(env, c), ListAttachments(results[0])] == [SearchOp(env, c), ListAttachments(results[0])];
    var p := CachedPrefix(env, md, run, results);
    SearchRunPrefix(env, page, c, p);
    assert UpdatePage(env, page).trace[|p| - 1] == p[|p| - 1];
  }

  /** The operations a forced run on a found page issues up to its cache
      write, which comes last. */
  lemma CachedPrefix(env: Env, md: string, run: Run, results: seq<string>) returns (p: seq<Op>)
    requires Truthy(run.page.title) && env.force
    requires env.remote.search(run.trace + [Search(run.page.title.value, env.config.spaceKey)]) == Some(results)
    requires |results| > 0 && results[0] != "" && !NamesDirectory(env, results[0])
    requires env.remote.attachments(run.trace + [Search(run.page.title.value, env.config.spaceKey), ListAttachments(results[0])]).Some?
    requires forall t :: env.remote.fetch(t).Some?
    ensures |p| > 0 && p[|p| - 1] == CacheWrite(results[0], RewriteReferences(md))
    ensures Extends(p, FindOrCreate(env, md, run).run.trace)
  {
    TryFindFound(env, md, run, results);
    var found := Issue(run, Search(run.page.title.value, env.config.spaceKey)).(page := run.page.(pageId := Some(results[0])));
    assert found.trace + [ListAttachments(results[0])]
      == run.trace + [Search(run.page.title.value, env.config.spaceKey), ListAttachments(results[0])];
    var a := UpdateAttachments(env, md, found);
    assert a.Next? && a.value == RewriteReferences(md);
    var cp := env.remote.fetch(a.run.trace + [Fetch(results[0])]).value;
    FetchAndSendWritesIff(env, a.value, a.run, cp);
    var sent := FetchAndSend(env, a.value, a.run).run.trace;
    p := a.run.trace + [Fetch(results[0]), CacheWrite(results[0], a.value)];
    assert sent == p + [Update(results[0], PreparePage(cp, found.page, a.value))];
    assert sent[..|p|] == p;
    FindOrCreateKeeps(env, md, run, p);
  }

  /** Once the current page is fetched, the cache file is written and the
      update sent exactly when forced or when the markup drifted; the cache
      write comes first, under the page's resolved id, holding the markup
      with its attachment names rewritten. When that id names a directory
      the write throws and nothing is sent. */
  lemma FetchAndSendWritesIff(env: Env, rewritten: string, run: Run, cp: ConfluencePage)
    requires Truthy(run.page.pageId) && Truthy(run.page.title)
    requires env.remote.fetch(run.trace + [Fetch(run.page.pageId.value)]) == Some(cp)
    ensures var id := run.page.pageId.value;
      (env.force || DynamicIds.IsRemoteUpdateRequired(rewritten, cp.body.value)) && !NamesDirectory(env, id) ==>
        FetchAndSend(env, rewritten, run).run.trace
          == run.trace + [Fetch(id), CacheWrite(id, rewritten), Update(id, PreparePage(cp, run.page, rewritten))]
    ensures !env.force && !DynamicIds.IsRemoteUpdateRequired(rewritten, cp.body.value) ==>
      FetchAndSend(env, rewritten, run) == Next((), Issue(run, Fetch(run.page.pageId.value)))
    ensures (env.force || DynamicIds.IsRemoteUpdateRequired(rewritten, cp.body.value)) && NamesDirectory(env, run.page.pageId.value) ==>
      FetchAndSend(env, rewritten, run) == Raised(Issue(run, Fetch(run.page.pageId.value)))
  {
  }
}
