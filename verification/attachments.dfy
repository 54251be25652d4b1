/** Attachment collection and the link rewrite of `generateArchiveZip`
    (src/index.ts:249-260): for every attachment of every used message, oldest
    message first, download it and point the transcript at its archive path. */
module Attachments {
  import opened Wrappers
  import opened Messages
  import opened Strings
  import Markup

  /** Where an attachment is stored inside the archive. */
  function LocalPath(a: Attachment): string
  {
    "attachments/" + a.filename
  }

  /** The attachment list of a message; a field that is not an array contributes none. */
  function AttachmentList(m: Message): seq<Attachment>
  {
    match m.attachments
    case Some(list) => list
    case None => []
  }

  /** The attachments of `msgs` in the order the loop visits them: message by
      message, and within a message in the order of its list. */
  function AttachmentsOf(msgs: seq<Message>): (atts: seq<Attachment>)
    ensures forall a :: a in atts <==> exists i :: 0 <= i < |msgs| && a in AttachmentList(msgs[i])
    ensures |msgs| == 1 ==> atts == AttachmentList(msgs[0])
  {
    if |msgs| == 0 then []
    else
      var rest := AttachmentsOf(msgs[1..]);
      assert forall i :: 1 <= i < |msgs| ==> msgs[i] == msgs[1..][i - 1];
      AttachmentList(msgs[0]) + rest
  }

  /** The attachments of two runs of messages are those of the first run followed
      by those of the second; with the singleton case this fixes every position
      and every repetition of `AttachmentsOf`. */
  lemma {:induction false} AttachmentsOfConcat(x: seq<Message>, y: seq<Message>)
    ensures AttachmentsOf(x + y) == AttachmentsOf(x) + AttachmentsOf(y)
    decreases |x|
  {
    if |x| == 0 {
      assert x + y == y;
    } else {
      assert (x + y)[1..] == x[1..] + y;
      AttachmentsOfConcat(x[1..], y);
    }
  }

  /** The line `md = md.replace(a.url, "attachments/" + a.filename)`, applied once per
      attachment in order, with the replacement taken literally: each step replaces
      only the first occurrence of the URL in the current text by the local path.
      Whenever no file name contains `$` this is exactly what the language computes. */
  function Rewrite(md: string, atts: seq<Attachment>): (r: string)
    ensures (forall i :: 0 <= i < |atts| ==> '$' !in atts[i].filename) ==> r == JsRewrite(md, atts)
    decreases |atts|
  {
    if |atts| == 0 then md
    else
      assert forall i :: 1 <= i < |atts| ==> atts[1..][i - 1] == atts[i];
      Rewrite(ReplaceFirst(md, atts[0].url, LocalPath(atts[0])), atts[1..])
  }

  /** The loop of lines 250-260 as the language runs it, `$` patterns included. */
  function JsRewrite(md: string, atts: seq<Attachment>): string
    decreases |atts|
  {
    if |atts| == 0 then md
    else JsRewrite(JsRewriteStep(md, atts[0]), atts[1..])
  }

  /** The step exactly as the language runs it. */
  function JsRewriteStep(md: string, a: Attachment): (r: string)
    ensures '$' !in a.filename ==> r == ReplaceFirst(md, a.url, LocalPath(a))
  {
    assert '$' !in a.filename ==> '$' !in LocalPath(a);
    JsReplace(md, a.url, LocalPath(a))
  }

  /** A file named `$&` whose URL `U` makes up the transcript: the language puts the
      matched URL back where the file name belongs, so the link reads
      `attachments/U` while the stored entry is `attachments/$&`. */
  lemma DollarFilenameExpanded(a: Attachment)
    requires a.filename == "$&" && |a.url| > 0 && a.url != "$&"
    ensures JsRewriteStep(a.url, a) == "attachments/" + a.url
    ensures Rewrite(a.url, [a]) == LocalPath(a)
    ensures JsRewriteStep(a.url, a) != Rewrite(a.url, [a])
  {
    WholeFirst(a.url);
    JsDollarStep(a);
    RewriteOne(a.url, a, 0);
    assert a.url[..0] == [] && a.url[|a.url|..] == [];
    PrefixCancels("attachments/", a.url, a.filename);
  }

  /** Two texts with the same prefix differ when the rest does. */
  lemma PrefixCancels(p: string, x: string, y: string)
    requires x != y
    ensures p + x != p + y
  {
    assert (p + x)[|p|..] == x;
    assert (p + y)[|p|..] == y;
  }

  /** A non-empty text is its own first occurrence. */
  lemma WholeFirst(s: string)
    requires |s| > 0
    ensures FirstOccurrence(s, s, 0)
  {
    assert s[0..|s|] == s;
  }

  /** The language's step on a transcript that is exactly the URL, for a file named `$&`. */
  lemma JsDollarStep(a: Attachment)
    requires a.filename == "$&" && |a.url| > 0
    ensures JsRewriteStep(a.url, a) == "attachments/" + a.url
  {
    var s := a.url;
    WholeFirst(s);
    JsReplaceAt(s, s, LocalPath(a), 0);
    assert s[..0] == [] && s[|s|..] == [];
    DollarAmpersand("attachments/", s, [], []);
  }

  /** A transcript in which no attachment URL occurs is left as it is. */
  lemma {:induction false} RewriteWithoutUrls(md: string, atts: seq<Attachment>)
    requires forall i :: 0 <= i < |atts| ==> !Occurs(md, atts[i].url)
    ensures Rewrite(md, atts) == md
    decreases |atts|
  {
    if |atts| > 0 {
      RewriteWithoutUrls(md, atts[1..]);
    }
  }

  /** One step: the text before the first occurrence of the URL and the text after it
      are kept, the occurrence becomes the local path. */
  lemma RewriteOne(md: string, a: Attachment, i: nat)
    requires FirstOccurrence(md, a.url, i)
    ensures Rewrite(md, [a]) == md[..i] + LocalPath(a) + md[i + |a.url|..]
  {
  }

  lemma RewriteSingle(md: string, a: Attachment)
    ensures Rewrite(md, [a]) == ReplaceFirst(md, a.url, LocalPath(a))
  {
    assert [a][1..] == [];
  }

  /** A URL quoted twice leaves its second occurrence in the transcript: only the
      first is rewritten. */
  lemma SecondOccurrenceSurvives(md: string, a: Attachment, i: nat, j: nat)
    requires FirstOccurrence(md, a.url, i) && OccursAt(md, a.url, j) && i + |a.url| <= j
    ensures Occurs(Rewrite(md, [a]), a.url)
  {
    var r := ReplaceFirst(md, a.url, LocalPath(a));
    RewriteSingle(md, a);
    ReplaceFirstKeepsLaterOccurrence(md, a.url, LocalPath(a), i, j);
    var k := j - |a.url| + |LocalPath(a)|;
    assert OccursAt(r, a.url, k);
    assert 0 <= k <= |r|;
  }

  /** What fetching an attachment yields: a network failure (the promise rejects),
      or a response of any status, whose body is stored as it is. */
  datatype Download = NetworkFailure | Response(status: int, body: seq<byte>)

  /** The `i`-th download is the first to fail. */
  predicate FirstFailure(atts: seq<Attachment>, download: string -> Download, i: int)
  {
    && 0 <= i < |atts|
    && download(atts[i].url).NetworkFailure?
    && forall j :: 0 <= j < i ==> download(atts[j].url).Response?
  }

  /** The downloads of `atts`, in order. The status is never looked at, so an error
      page is archived like a file; a network failure aborts everything and names
      the URL. */
  function Collect(atts: seq<Attachment>, download: string -> Download): (r: Result<seq<File>, string>)
    ensures r.Ok? <==> forall i :: 0 <= i < |atts| ==> download(atts[i].url).Response?
    ensures r.Ok? ==> |r.value| == |atts|
    ensures r.Ok? ==> forall i :: 0 <= i < |atts| ==>
      r.value[i] == File(atts[i].filename, download(atts[i].url).body)
    ensures r.Err? ==> exists i :: FirstFailure(atts, download, i) && r.error == atts[i].url
  {
    if |atts| == 0 then Ok([])
    else match download(atts[0].url)
      case NetworkFailure => Err(atts[0].url)
      case Response(_, body) =>
        match Collect(atts[1..], download)
        case Err(url) =>
          var i :| FirstFailure(atts[1..], download, i) && url == atts[1..][i].url;
          assert FirstFailure(atts, download, i + 1);
          Err(url)
        case Ok(files) =>
          assert forall i :: 1 <= i < |atts| ==> atts[i] == atts[1..][i - 1];
          Ok([File(atts[0].filename, body)] + files)
  }

  /** A URL that carries a query string (some `&` followed by a character other than
      `a`, `l` or `g`) is never found in an escaped message text, so its rewrite
      leaves that text unchanged. */
  lemma QueryUrlNotRewritten(text: string, a: Attachment, p: nat)
    requires p + 1 < |a.url| && a.url[p] == '&' && a.url[p + 1] !in "alg"
    ensures Rewrite(Markup.Escape(text), [a]) == Markup.Escape(text)
  {
    Markup.UrlWithQueryNotInEscapedText(text, a.url, p);
  }
}
