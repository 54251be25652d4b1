/** The markdown transcript of `generateArchiveZip` (src/index.ts:234-246):
    a title line, a blank line, then one line per message, oldest first. */
module Transcript {
  import opened Wrappers
  import opened Messages
  import opened Strings
  import opened Markup

  const Title: string := "# Channel Archive: "

  function Header(channelId: string): string
  {
    Title + channelId + "\n\n"
  }

  /** `m.content || ""`: an absent, null or empty content is the empty text. */
  function Text(m: Message): string
  {
    match m.content
    case Some(t) => t
    case None => ""
  }

  /** The author as `username#discriminator`. */
  function Identity(a: Author): string
  {
    a.username + "#" + a.discriminator
  }

  /** `**user#disc** [time]: text`, user and text escaped; `time` is the locale
      rendering of the message's timestamp. */
  function RenderLine(m: Message, time: string): string
  {
    "**" + Escape(Identity(m.author)) + "** [" + time + "]: " + Escape(Text(m))
  }

  /** One rendered line per message, in the order given. */
  function RenderAll(msgs: seq<Message>, localTime: string -> string): (lines: seq<string>)
    ensures |lines| == |msgs|
    ensures forall i :: 0 <= i < |msgs| ==> lines[i] == RenderLine(msgs[i], localTime(msgs[i].timestamp))
  {
    if |msgs| == 0 then []
    else [RenderLine(msgs[0], localTime(msgs[0].timestamp))] + RenderAll(msgs[1..], localTime)
  }

  /** The transcript of the used messages, which arrive newest first: the header,
      then the lines of the reversed messages joined by newlines. */
  function Build(channelId: string, used: seq<Message>, localTime: string -> string): (md: string)
    ensures |Header(channelId)| <= |md| && md[..|Header(channelId)|] == Header(channelId)
    ensures |used| == 0 ==> md == Header(channelId)
  {
    Header(channelId) + Join(RenderAll(Reverse(used), localTime), '\n')
  }

  /** No field of `m` that reaches its line contains a line break. */
  predicate SingleLine(m: Message, localTime: string -> string)
  {
    '\n' !in Identity(m.author) && '\n' !in Text(m) && '\n' !in localTime(m.timestamp)
  }

  lemma RenderLineSingle(m: Message, time: string)
    requires '\n' !in Identity(m.author) && '\n' !in Text(m) && '\n' !in time
    ensures '\n' !in RenderLine(m, time)
  {
    EscapeKeepsOtherCharacters(Identity(m.author), '\n');
    EscapeKeepsOtherCharacters(Text(m), '\n');
  }

  /** When no field contains a line break, the transcript body splits into exactly
      one line per used message, and line `i` renders the `i`-th oldest message. */
  lemma TranscriptLines(channelId: string, used: seq<Message>, localTime: string -> string)
    requires |used| > 0
    requires forall i :: 0 <= i < |used| ==> SingleLine(used[i], localTime)
    ensures var md := Build(channelId, used, localTime);
      var lines := Split(md[|Header(channelId)|..], '\n');
      && |lines| == |used|
      && forall i :: 0 <= i < |used| ==>
           var m := used[|used| - 1 - i];
           lines[i] == RenderLine(m, localTime(m.timestamp))
  {
    var chron := Reverse(used);
    var lines := RenderAll(chron, localTime);
    forall i | 0 <= i < |lines|
      ensures '\n' !in lines[i]
    {
      RenderLineSingle(chron[i], localTime(chron[i].timestamp));
    }
    SplitJoin(lines, '\n');
    var md := Build(channelId, used, localTime);
    assert md[|Header(channelId)|..] == Join(lines, '\n');
  }

  /** A message without content, or with empty content, renders with an empty text field. */
  lemma EmptyContentLine(m: Message, time: string)
    requires m.content.None? || m.content == Some("")
    ensures RenderLine(m, time) == "**" + Escape(Identity(m.author)) + "** [" + time + "]: "
  {
    assert Escape("") == "";
  }
}
