/** The worker's request handling (src/index.ts:4-112): method check, JSON
    parse, signature check, then routing by interaction type and command name;
    and the `archive` command's role check and `limit` option. The parse result
    and the Ed25519 verdict are inputs. */
module Dispatch {
  import opened Wrappers

  /** An option's value: a JSON number, or anything else. */
  datatype OptionValue = NumberValue(n: int) | OtherValue

  datatype CommandOption = CommandOption(name: string, value: OptionValue)

  /** `interaction.data`: the command name and its options (`None` when absent). */
  datatype CommandData = CommandData(name: string, options: Option<seq<CommandOption>>)

  /** `interaction.member`; `roles` is `None` when the field is not an array. */
  datatype Member = Member(roles: Option<seq<string>>)

  /** The parsed interaction. `kind` is `type` when it is a number; `data` and
      `member` are `None` when absent. */
  datatype Interaction = Interaction(
    kind: Option<int>,
    data: Option<CommandData>,
    member: Option<Member>,
    channelId: string,
    token: string)

  /** An inbound request: its HTTP method (`verb`), its body as parsed (`None` when `JSON.parse`
      throws), and the two signature headers (`None` when missing). */
  datatype HttpRequest = HttpRequest(
    verb: string,
    body: Option<Interaction>,
    signature: Option<string>,
    timestamp: Option<string>)

  datatype Env = Env(archiveRoleId: string, archiveChannel: string)

  /** The background job an accepted `archive` command starts. */
  datatype ArchiveJob = ArchiveJob(channelId: string, limit: Option<int>, token: string)

  datatype Response =
    | MethodNotAllowed                    // 405
    | InvalidJson                         // 400
    | InvalidSignature                    // 401
    | PingAck                             // {"type":1}
    | Pong                                // "PONG!"
    | MissingRole                         // ephemeral refusal naming the role
    | ArchiveAccepted(job: ArchiveJob, destination: string)  // ephemeral acknowledgement
    | NoContent                           // 204
    | Fault                               // a property read on `undefined` throws

  /** `toUpperCase` on ASCII letters. */
  function ToUpper(s: string): (r: string)
    ensures |r| == |s|
    ensures forall i :: 0 <= i < |s| ==> r[i] == if 'a' <= s[i] <= 'z' then (s[i] as int - 32) as char else s[i]
  {
    if |s| == 0 then []
    else [if 'a' <= s[0] <= 'z' then (s[0] as int - 32) as char else s[0]] + ToUpper(s[1..])
  }

  /** A header value that is truthy: present and non-empty. */
  predicate Truthy(header: Option<string>)
  {
    header.Some? && header.value != ""
  }

  /** `sig && ts && await verifyKey(...)`, with `verified` the library's verdict. */
  predicate Authentic(req: HttpRequest, verified: bool)
  {
    Truthy(req.signature) && Truthy(req.timestamp) && verified
  }

  /** The member's roles; a field that is not an array counts as no roles (line 96). */
  function Roles(member: Member): seq<string>
  {
    match member.roles
    case Some(roles) => roles
    case None => []
  }

  /** The role check of line 98: an empty required role refuses everyone. */
  predicate MayArchive(member: Member, required: string)
  {
    required != "" && required in Roles(member)
  }

  /** `options[i]` is the first option named `limit`. */
  predicate FirstLimit(options: seq<CommandOption>, i: int)
  {
    0 <= i < |options| && options[i].name == "limit" &&
    forall j :: 0 <= j < i ==> options[j].name != "limit"
  }

  /** `options?.find(o => o.name === "limit")?.value`, kept only when it is a number. */
  function LimitOption(options: Option<seq<CommandOption>>): (r: Option<int>)
    ensures r.Some? <==> options.Some? && exists i :: FirstLimit(options.value, i) && options.value[i].value.NumberValue?
    ensures forall i :: options.Some? && FirstLimit(options.value, i) && options.value[i].value.NumberValue? ==>
      r == Some(options.value[i].value.n)
  {
    match options
    case None => None
    case Some(list) => FindLimit(list, 0)
  }

  function FindLimit(options: seq<CommandOption>, from: nat): (r: Option<int>)
    requires from <= |options|
    requires forall j :: 0 <= j < from ==> options[j].name != "limit"
    ensures r.Some? <==> exists i :: FirstLimit(options, i) && options[i].value.NumberValue?
    ensures forall i :: FirstLimit(options, i) && options[i].value.NumberValue? ==> r == Some(options[i].value.n)
    decreases |options| - from
  {
    if from == |options| then None
    else if options[from].name == "limit" then
      assert FirstLimit(options, from);
      match options[from].value
      case NumberValue(n) => Some(n)
      case OtherValue => None
    else FindLimit(options, from + 1)
  }

  /** `archive(interaction, env, ctx)` up to the acknowledgement (lines 92-124, 191). */
  function HandleArchive(interaction: Interaction, env: Env): (r: Response)
    requires interaction.data.Some?
    ensures r.ArchiveAccepted? <==> interaction.member.Some? && MayArchive(interaction.member.value, env.archiveRoleId)
    ensures r.ArchiveAccepted? ==>
      r.job == ArchiveJob(interaction.channelId, LimitOption(interaction.data.value.options), interaction.token) &&
      r.destination == env.archiveChannel
    ensures r == Fault <==> interaction.member.None?
  {
    match interaction.member
    case None => Fault
    case Some(member) =>
      if !MayArchive(member, env.archiveRoleId) then MissingRole
      else
        var limit := LimitOption(interaction.data.value.options);
        ArchiveAccepted(ArchiveJob(interaction.channelId, limit, interaction.token), env.archiveChannel)
  }

  /** The command an interaction of type 2 names; reading it throws without `data`. */
  predicate IsCommand(interaction: Interaction, name: string)
  {
    interaction.kind == Some(2) && interaction.data.Some? && interaction.data.value.name == name
  }

  /** The default `fetch` handler. `verified` is what `verifyKey` answers for the
      request's body, headers and the public key. */
  function Handle(req: HttpRequest, env: Env, verified: bool): (r: Response)
    ensures r == MethodNotAllowed <==> ToUpper(req.verb) != "POST"
    ensures r == InvalidJson <==> ToUpper(req.verb) == "POST" && req.body.None?
    ensures r == InvalidSignature <==> ToUpper(req.verb) == "POST" && req.body.Some? && !Authentic(req, verified)
    ensures r == PingAck <==> ToUpper(req.verb) == "POST" && req.body.Some? && Authentic(req, verified) && req.body.value.kind == Some(1)
    ensures r == Pong <==> ToUpper(req.verb) == "POST" && req.body.Some? && Authentic(req, verified) && IsCommand(req.body.value, "ping")
    ensures r.ArchiveAccepted? || r == MissingRole ==>
      ToUpper(req.verb) == "POST" && req.body.Some? && Authentic(req, verified) && IsCommand(req.body.value, "archive")
    ensures r == NoContent <==>
      ToUpper(req.verb) == "POST" && req.body.Some? && Authentic(req, verified) &&
      req.body.value.kind != Some(1) && !(req.body.value.kind == Some(2) &&
        (req.body.value.data.None? || req.body.value.data.value.name in ["ping", "archive"]))
  {
    if ToUpper(req.verb) != "POST" then MethodNotAllowed
    else match req.body
      case None => InvalidJson
      case Some(interaction) =>
        if !Authentic(req, verified) then InvalidSignature
        else if interaction.kind == Some(1) then PingAck
        else if interaction.kind == Some(2) && interaction.data.None? then Fault
        else if IsCommand(interaction, "ping") then Pong
        else if IsCommand(interaction, "archive") then HandleArchive(interaction, env)
        else NoContent
  }

  /** A request that fails the signature check is answered 401 whatever its
      interaction says. */
  lemma UnauthenticatedIgnoresInteraction(req: HttpRequest, other: Interaction, env: Env, verified: bool)
    requires ToUpper(req.verb) == "POST" && req.body.Some? && !Authentic(req, verified)
    ensures Handle(req, env, verified) == Handle(req.(body := Some(other)), env, verified) == InvalidSignature
  {
  }

  /** An authentic `archive` command from a member starts a job exactly when the
      member holds the required role, and then with the requested limit. */
  lemma ArchiveNeedsRole(req: HttpRequest, env: Env, verified: bool)
    requires ToUpper(req.verb) == "POST" && req.body.Some? && Authentic(req, verified)
    requires IsCommand(req.body.value, "archive") && req.body.value.member.Some?
    ensures var r := Handle(req, env, verified);
      && (r.ArchiveAccepted? <==> MayArchive(req.body.value.member.value, env.archiveRoleId))
      && (!r.ArchiveAccepted? ==> r == MissingRole)
      && (r.ArchiveAccepted? ==> r.job.limit == LimitOption(req.body.value.data.value.options))
  {
  }
}
