/** `generateArchiveZip` (src/index.ts:194-270) as one pure function: fetch the
    history, keep the used messages, render the transcript, download the
    attachments, rewrite their links and build the entry map. */
module Archive {
  import opened Wrappers
  import opened Messages
  import opened Strings
  import opened Pagination
  import opened Transcript
  import opened Attachments
  import opened Packaging

  datatype ArchiveError = FetchFailed(reason: FetchError) | DownloadFailed(url: string)

  /** The attachments the loop of lines 250-260 visits: those of the used
      messages, oldest message first, because line 239 reversed `msgs` in place. */
  function VisitedAttachments(limit: Option<int>, all: seq<Message>): seq<Attachment>
  {
    AttachmentsOf(Reverse(Used(limit, all)))
  }

  /** Line 239 reverses `msgs` in place before the loop of lines 250-252 walks
      it, so the attachments of older messages are visited before those of newer
      ones: splitting the used messages (newest first) at `k`, the attachments of
      the older part `used[k..]` come first, oldest message first. */
  lemma VisitedOldestFirst(limit: Option<int>, all: seq<Message>, k: nat)
    requires k <= |Used(limit, all)|
    ensures var used := Used(limit, all);
      VisitedAttachments(limit, all) == AttachmentsOf(Reverse(used[k..])) + AttachmentsOf(Reverse(used[..k]))
  {
    var used := Used(limit, all);
    assert used == used[..k] + used[k..];
    ReverseConcat(used[..k], used[k..]);
    AttachmentsOfConcat(Reverse(used[k..]), Reverse(used[..k]));
  }

  /** The first attachments visited are those of the oldest used message. */
  lemma VisitedStartsWithOldest(limit: Option<int>, all: seq<Message>)
    requires |Used(limit, all)| > 0
    ensures var used := Used(limit, all);
      AttachmentList(used[|used| - 1]) <= VisitedAttachments(limit, all)
  {
    var used := Used(limit, all);
    var k := |used| - 1;
    VisitedOldestFirst(limit, all, k);
    assert used[k..] == [used[k]];
    assert Reverse(used[k..]) == [used[k]];
  }

  function Generate(
    channelId: string, limit: Option<int>, upstream: Upstream, fuel: nat,
    localTime: string -> string, download: string -> Download): (r: Result<map<string, Content>, ArchiveError>)
    ensures var run := Fetch(upstream, limit, fuel);
      run.outcome.Err? ==> r == Err(FetchFailed(run.outcome.error))
    ensures var run := Fetch(upstream, limit, fuel);
      run.outcome.Ok? ==>
        var atts := VisitedAttachments(limit, run.outcome.value);
        (r.Ok? <==> forall i :: 0 <= i < |atts| ==> download(atts[i].url).Response?)
    ensures var run := Fetch(upstream, limit, fuel);
      r.Ok? ==>
        var atts := VisitedAttachments(limit, run.outcome.value);
        && r.value.Keys == {TranscriptName} + (set a | a in atts :: EntryName(a.filename))
        && r.value[TranscriptName].TextEntry?
  {
    var run := Fetch(upstream, limit, fuel);
    match run.outcome
    case Err(e) => Err(FetchFailed(e))
    case Ok(all) =>
      var used := Used(limit, all);
      var md := Build(channelId, used, localTime);
      var atts := VisitedAttachments(limit, all);
      match Collect(atts, download)
      case Err(url) => Err(DownloadFailed(url))
      case Ok(files) =>
        FileNames(atts, files, download);
        Ok(Entries(Rewrite(md, atts), files))
  }

  lemma FileNames(atts: seq<Attachment>, files: seq<File>, download: string -> Download)
    requires Collect(atts, download) == Ok(files)
    ensures Names(files) == set a | a in atts :: EntryName(a.filename)
  {
    forall a | a in atts ensures EntryName(a.filename) in Names(files) {
      var i :| 0 <= i < |atts| && atts[i] == a;
      assert files[i].name == a.filename;
    }
    forall f | f in files ensures exists a :: a in atts && EntryName(a.filename) == EntryName(f.name) {
      var i :| 0 <= i < |files| && files[i] == f;
      assert atts[i].filename == f.name;
    }
  }

  lemma UsedNewest(limit: Option<int>, h: seq<Message>)
    ensures Used(limit, Newest(limit, h)) == Newest(limit, h)
  {
  }

  /** Against a channel whose history is `h` (newest first) and with every download
      answered, the archive succeeds; its transcript renders exactly the newest
      messages the limit allows, oldest first, with their links rewritten. */
  lemma ArchiveOfHistory(
    channelId: string, limit: Option<int>, h: seq<Message>, fuel: nat,
    localTime: string -> string, download: string -> Download)
    requires WellIdentified(h) && fuel > |h|
    requires var atts := AttachmentsOf(Reverse(Newest(limit, h)));
      forall i :: 0 <= i < |atts| ==> download(atts[i].url).Response?
    ensures var r := Generate(channelId, limit, HistoryUpstream(h), fuel, localTime, download);
      var used := Newest(limit, h);
      && r.Ok?
      && r.value[TranscriptName] == TextEntry(Rewrite(Build(channelId, used, localTime), AttachmentsOf(Reverse(used))))
      && ((forall a :: a in AttachmentsOf(Reverse(used)) ==> '$' !in a.filename) ==>
            r.value[TranscriptName] == TextEntry(JsRewrite(Build(channelId, used, localTime), AttachmentsOf(Reverse(used)))))
      && (Positive(limit) ==> |used| == Min(limit.value, |h|) && used == h[..|used|])
      && (Negative(limit) ==> used == [])
      && (!Truthy(limit) ==> used == h)
  {
    var used := Newest(limit, h);
    FetchFromHistory(h, limit, fuel);
    assert Fetch(HistoryUpstream(h), limit, fuel).outcome == Ok(used);
    UsedNewest(limit, h);
    assert VisitedAttachments(limit, used) == AttachmentsOf(Reverse(used));
    GenerateAfterFetch(channelId, limit, HistoryUpstream(h), fuel, localTime, download, used);
  }

  /** Once the fetch has succeeded and every download is answered, the archive's
      transcript is the rewritten rendering of the used messages. */
  lemma GenerateAfterFetch(
    channelId: string, limit: Option<int>, upstream: Upstream, fuel: nat,
    localTime: string -> string, download: string -> Download, all: seq<Message>)
    requires Fetch(upstream, limit, fuel).outcome == Ok(all)
    requires var atts := VisitedAttachments(limit, all);
      forall i :: 0 <= i < |atts| ==> download(atts[i].url).Response?
    ensures var r := Generate(channelId, limit, upstream, fuel, localTime, download);
      && r.Ok?
      && r.value[TranscriptName]
         == TextEntry(Rewrite(Build(channelId, Used(limit, all), localTime), VisitedAttachments(limit, all)))
  {
  }
}
