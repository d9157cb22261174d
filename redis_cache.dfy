/**
 * The Redis cache provider: key naming, the timeout conversion, the connection
 * policy, and how replies to GET and SET are sorted into success and failure.
 * Every hiredis call is replaced by its outcome, passed in as a parameter, and
 * every command is recorded in `sent` in the order it goes out.
 */
module RedisCache {
  import opened Wrappers
  import Decimal

  /** Name of the record that describes a cache entry. */
  const CACHE_ENTRY_FILE_NAME: string := ".entry"
  /** Namespace of every key the provider writes. */
  const KEY_PREFIX: string := "buildcache"
  const DEFAULT_PORT: int := 6379

  /** The key of a file of a cache entry: "buildcache_" + hash + "_" + file id. */
  function RemoteKeyName(hash: string, file: string): string
  {
    KEY_PREFIX + "_" + hash + "_" + file
  }

  /** A key reads as the prefix "buildcache_", the hash, a '_', and the file id, in that order. */
  lemma RemoteKeyNameParts(hash: string, file: string)
    ensures var key := RemoteKeyName(hash, file);
      && |key| == |KEY_PREFIX| + |hash| + |file| + 2
      && key[..|KEY_PREFIX| + 1] == KEY_PREFIX + "_"
      && key[|KEY_PREFIX| + 1..|KEY_PREFIX| + 1 + |hash|] == hash && key[|KEY_PREFIX| + 1 + |hash|] == '_'
      && key[|key| - |file|..] == file
  {
    var key := RemoteKeyName(hash, file);
    assert key == (KEY_PREFIX + "_") + hash + ("_" + file);
  }

  /** Under one hash, the key determines the file id. */
  lemma RemoteKeyNameSameHash(hash: string, f1: string, f2: string)
    requires RemoteKeyName(hash, f1) == RemoteKeyName(hash, f2)
    ensures f1 == f2
  {
    RemoteKeyNameParts(hash, f1);
    RemoteKeyNameParts(hash, f2);
  }

  /** A key names exactly one (hash, file) pair when hashes contain no '_'. */
  lemma RemoteKeyNameInjective(h1: string, f1: string, h2: string, f2: string)
    requires '_' !in h1 && '_' !in h2
    requires RemoteKeyName(h1, f1) == RemoteKeyName(h2, f2)
    ensures h1 == h2 && f1 == f2
  {
    var n := |KEY_PREFIX| + 1;
    var k1, k2 := RemoteKeyName(h1, f1), RemoteKeyName(h2, f2);
    var t1, t2 := h1 + "_" + f1, h2 + "_" + f2;
    assert k1[n..] == t1 && k2[n..] == t2;
    assert t1 == t2;
    assert t1[|h1|] == '_' && t2[|h2|] == '_';
    assert forall i :: 0 <= i < |h1| ==> t1[i] == h1[i];
    assert forall i :: 0 <= i < |h2| ==> t2[i] == h2[i];
    assert |h1| == |h2|;
    assert h1 == t1[..|h1|] && h2 == t2[..|h2|];
    assert f1 == t1[|h1| + 1..] && f2 == t2[|h2| + 1..];
  }

  // ---------------------------------------------------------------------------
  // Timeouts.

  /** A C `int`. */
  newtype Int32 = x: int | -0x8000_0000 <= x < 0x8000_0000

  /** C integer division, which truncates toward zero. */
  function CDiv(a: int, b: int): int
    requires b > 0
  {
    if a >= 0 then a / b else -((-a) / b)
  }

  /** C remainder, which takes the sign of the dividend. */
  function CRem(a: int, b: int): int
    requires b > 0
  {
    a - CDiv(a, b) * b
  }

  datatype Timeval = Timeval(sec: int, usec: int)

  /** Splits milliseconds into whole seconds and the remaining microseconds. */
  function MsToTimeval(ms: Int32): (tv: Timeval)
    ensures tv.sec * 1000 + CDiv(tv.usec, 1000) == ms as int
    ensures -1_000_000 < tv.usec < 1_000_000 && tv.usec % 1000 == 0
    ensures ms >= 0 ==> tv.sec == ms as int / 1000 && 0 <= tv.usec && tv.sec * 1000 + tv.usec / 1000 == ms as int
    ensures ms < 0 ==> tv.sec <= 0 && tv.usec <= 0
  {
    var m := ms as int;
    var r := CRem(m, 1000);
    assert -1000 < r < 1000;
    assert CDiv(r * 1000, 1000) == r;
    Timeval(CDiv(m, 1000), r * 1000)
  }

  // ---------------------------------------------------------------------------
  // Replies and commands.

  /** A reply type code other than the four the provider names (string 1, nil 4, status 5, error 6). */
  type OtherReplyType = t: int | t != 1 && t != 4 && t != 5 && t != 6 witness 2

  /** What `redisCommand` hands back; `NullReply` is a null pointer, with the context's error text. */
  datatype Reply =
    | StringReply(str: string)
    | StatusReply(str: string)
    | ErrorReply(str: string)
    | NilReply
    | OtherReply(replyType: OtherReplyType)
    | NullReply(errstr: string)

  /** The hiredis type code of a non-null reply. */
  function ReplyTypeCode(reply: Reply): int
    requires !reply.NullReply?
  {
    match reply
    case StringReply(_) => 1
    case NilReply => 4
    case StatusReply(_) => 5
    case ErrorReply(_) => 6
    case OtherReply(t) => t
  }

  /** The exceptions the provider raises. */
  datatype Failure = RuntimeError(what: string) | OutOfRange(key: string)

  datatype Command = Auth(credentials: string) | Get(key: string) | Set(key: string, data: string)

  /** What a connected `get_data` makes of the reply to its GET. */
  function GetOutcome(key: string, reply: Reply): (r: Result<string, Failure>)
    ensures r.Success? <==> reply.StringReply?
    ensures r.Success? ==> r.value == reply.str
    ensures reply.NilReply? ==> r == Failure(RuntimeError("Remote cache miss: " + key))
    ensures reply.ErrorReply? ==> r == Failure(RuntimeError("Remote cache reply error: " + reply.str))
  {
    match reply
    case StringReply(s) => Success(s)
    case ErrorReply(s) => Failure(RuntimeError("Remote cache reply error: " + s))
    case NilReply => Failure(RuntimeError("Remote cache miss: " + key))
    case NullReply(e) => Failure(RuntimeError("Remote cache GET error: " + e))
    case _ => Failure(RuntimeError("Unexpected remote cache reply type: " + Decimal.IntToString(ReplyTypeCode(reply))))
  }

  /** What a connected `set_data` makes of the reply to its SET. */
  function SetOutcome(reply: Reply): (r: Outcome<Failure>)
    ensures r.Pass? <==> reply.StatusReply?
    ensures reply.ErrorReply? ==> r == Fail(RuntimeError("Remote cache reply error: " + reply.str))
    ensures reply.StringReply? || reply.NilReply? ==>
              r == Fail(RuntimeError("Unexpected remote cache reply type: " + Decimal.IntToString(ReplyTypeCode(reply))))
  {
    match reply
    case StatusReply(_) => Pass
    case ErrorReply(s) => Fail(RuntimeError("Remote cache reply error: " + s))
    case NullReply(e) => Fail(RuntimeError("Remote cache SET error: " + e))
    case _ => Fail(RuntimeError("Unexpected remote cache reply type: " + Decimal.IntToString(ReplyTypeCode(reply))))
  }

  // ---------------------------------------------------------------------------
  // Connecting.

  /** The decoded host description: host, port (negative when none was given) and path. */
  datatype HostDescription = HostDescription(host: string, port: int, path: string)

  /** What `redisConnectWithTimeout` produced: no context, a context in error, or a live one. */
  datatype LinkOutcome = NoContext | LinkError(errstr: string) | Linked

  /** A live connection and the timeouts it was set up with. */
  datatype Context = Context(host: string, port: int, connectTimeout: Timeval, transferTimeout: Option<Timeval>)

  /** A negative port means "not given" and becomes the Redis default. */
  function EffectivePort(port: int): (p: int)
    ensures p >= 0
    ensures port >= 0 ==> p == port
    ensures port < 0 ==> p == DEFAULT_PORT
  {
    if port < 0 then DEFAULT_PORT else port
  }

  datatype AuthPlan = NoAuth | SendAuth(credentials: string) | MissingPassword

  /** How the configured user name and password decide the AUTH step. */
  function AuthPolicy(username: string, password: string): (plan: AuthPlan)
    ensures plan.NoAuth? <==> password == [] && username == []
    ensures plan.MissingPassword? <==> password == [] && username != []
    ensures plan.SendAuth? ==> plan.credentials == if username == [] then password else username + " " + password
  {
    if password != [] then
      SendAuth(if username == [] then password else username + " " + password)
    else if username != [] then MissingPassword
    else NoAuth
  }

  /** With a user name free of spaces, the AUTH argument splits back into user name and password. */
  lemma AuthCredentialsSplit(username: string, password: string)
    requires username != [] && password != [] && ' ' !in username
    ensures var c := AuthPolicy(username, password).credentials;
      && c[..|username|] == username && c[|username|] == ' ' && c[|username| + 1..] == password
      && forall i :: 0 <= i < |username| ==> c[i] != ' '
  {
  }

  /** Whether the AUTH step lets `connect` succeed: anything but an error reply or a failed command. */
  predicate AuthAccepted(plan: AuthPlan, reply: Reply)
  {
    match plan
    case NoAuth => true
    case MissingPassword => false
    case SendAuth(_) => !reply.ErrorReply? && !reply.NullReply?
  }

  // ---------------------------------------------------------------------------
  // Cache entries.

  datatype CompressionMode = CompressNone | CompressAll

  /** A cache entry record; `NoEntry` is the default-constructed one that signals a miss. */
  datatype CacheEntry = NoEntry | Entry(fileIds: seq<string>, compressionMode: CompressionMode)
  {
    function FileIds(): seq<string>
    {
      if Entry? then fileIds else []
    }
  }

  datatype ExpectedFile = ExpectedFile(path: string, required: bool)

  /** The bytes uploaded for a file: its contents, compressed when the entry says so. */
  function UploadData(entry: CacheEntry, path: string, read: string -> string, compress: string -> string): string
  {
    if entry.Entry? && entry.compressionMode == CompressAll then compress(read(path)) else read(path)
  }

  /** The SET for one file id (the data is empty for an id that has no expected file). */
  function FileCommand(hash: string, entry: CacheEntry, files: map<string, ExpectedFile>,
                       read: string -> string, compress: string -> string, id: string): Command
  {
    Set(RemoteKeyName(hash, id), if id in files then UploadData(entry, files[id].path, read, compress) else [])
  }

  /** The commands a fully successful `add` sends: one SET per file id in order, then the entry record. */
  function AddCommands(hash: string, entry: CacheEntry, files: map<string, ExpectedFile>,
                       read: string -> string, compress: string -> string,
                       serialize: CacheEntry -> string): (cmds: seq<Command>)
    ensures |cmds| == |entry.FileIds()| + 1
    ensures cmds[|cmds| - 1] == Set(RemoteKeyName(hash, CACHE_ENTRY_FILE_NAME), serialize(entry))
  {
    var ids := entry.FileIds();
    seq(|ids|, i requires 0 <= i < |ids| => FileCommand(hash, entry, files, read, compress, ids[i]))
      + [Set(RemoteKeyName(hash, CACHE_ENTRY_FILE_NAME), serialize(entry))]
  }

  /** The i-th command of `add` is the SET of the i-th file id, under that id's key. */
  lemma AddCommandsAt(hash: string, entry: CacheEntry, files: map<string, ExpectedFile>,
                      read: string -> string, compress: string -> string, serialize: CacheEntry -> string, i: nat)
    requires i < |entry.FileIds()|
    ensures var cmds := AddCommands(hash, entry, files, read, compress, serialize);
      && cmds[i] == FileCommand(hash, entry, files, read, compress, entry.FileIds()[i])
      && cmds[i].Set? && cmds[i].key == RemoteKeyName(hash, entry.FileIds()[i])
  {
  }

  /** With distinct file ids other than ".entry", `add` writes every key once and never over the record. */
  lemma AddKeysDistinct(hash: string, entry: CacheEntry, files: map<string, ExpectedFile>,
                        read: string -> string, compress: string -> string, serialize: CacheEntry -> string)
    requires forall i, j :: 0 <= i < j < |entry.FileIds()| ==> entry.FileIds()[i] != entry.FileIds()[j]
    requires forall i :: 0 <= i < |entry.FileIds()| ==> entry.FileIds()[i] != CACHE_ENTRY_FILE_NAME
    ensures var cmds := AddCommands(hash, entry, files, read, compress, serialize);
      forall i, j :: 0 <= i < j < |cmds| ==> cmds[i].key != cmds[j].key
  {
    var cmds := AddCommands(hash, entry, files, read, compress, serialize);
    var ids := entry.FileIds();
    forall i, j | 0 <= i < j < |cmds|
      ensures cmds[i].key != cmds[j].key
    {
      var fj := if j < |ids| then ids[j] else CACHE_ENTRY_FILE_NAME;
      AddCommandsAt(hash, entry, files, read, compress, serialize, i);
      if j < |ids| {
        AddCommandsAt(hash, entry, files, read, compress, serialize, j);
      }
      assert cmds[j].key == RemoteKeyName(hash, fj);
      if cmds[i].key == cmds[j].key {
        RemoteKeyNameSameHash(hash, ids[i], fj);
        assert false;
      }
    }
  }

  // ---------------------------------------------------------------------------
  // What `add` promises, over values: s0 and c0 are the commands sent and the
  // context before, s1/s2 and c1/c2 after, and `passed` tells success.

  /**
   * The loop of `add` over the file ids: what it sent is the first file SETs in
   * order; it succeeds, having sent them all, exactly when every id has an
   * expected file, every reply is a status and (with at least one id) the
   * provider was connected; every SET but the last one sent succeeded and had
   * an expected file; a connected failure is a failed last SET or a missing
   * expected file for the next id; nothing is sent while disconnected; and the
   * context is dropped exactly when the last reply was a null reply.
   */
  predicate UploadedFiles(cmds: seq<Command>, ids: seq<string>, files: map<string, ExpectedFile>, replies: seq<Reply>,
                          connected: bool, s0: seq<Command>, s1: seq<Command>,
                          c0: Option<Context>, c1: Option<Context>, passed: bool)
  {
    && |cmds| == |ids| + 1 && |replies| == |ids| + 1
    && |s0| <= |s1| <= |s0| + |ids|
    && s1 == s0 + cmds[..|s1| - |s0|]
    && (passed <==>
          && (|ids| > 0 ==> connected)
          && (forall k :: 0 <= k < |ids| ==> ids[k] in files)
          && (forall k :: 0 <= k < |ids| ==> replies[k].StatusReply?))
    && (passed ==> |s1| == |s0| + |ids| && c1 == c0)
    && (forall k :: 0 <= k < |s1| - |s0| - 1 ==> replies[k].StatusReply?)
    && (forall k :: 0 <= k < |s1| - |s0| ==> ids[k] in files)
    && (!connected ==> s1 == s0 && c1 == c0)
    && (connected && !passed ==>
          var n := |s1| - |s0|;
          (n > 0 && !replies[n - 1].StatusReply?) || (n < |ids| && ids[n] !in files))
    && (connected ==> c1 == if |s1| > |s0| && replies[|s1| - |s0| - 1].NullReply? then None else c0)
    && (c1 == c0 || c1 == None)
  }

  /**
   * The whole of `add`: what it sent is a prefix of `AddCommands`, all of it
   * exactly on success, which needs a connection, an expected file for every id
   * and a status reply to every SET, the record's included; every SET but the
   * last one sent succeeded, so the record goes out only after every file SET
   * succeeded; the other clauses are those of `UploadedFiles`.
   */
  predicate AddedEntry(cmds: seq<Command>, ids: seq<string>, files: map<string, ExpectedFile>, replies: seq<Reply>,
                       connected: bool, s0: seq<Command>, s2: seq<Command>,
                       c0: Option<Context>, c2: Option<Context>, passed: bool)
  {
    && |cmds| == |ids| + 1 && |replies| == |ids| + 1
    && |s0| <= |s2| <= |s0| + |cmds|
    && s2 == s0 + cmds[..|s2| - |s0|]
    && (passed <==>
          && connected
          && (forall k :: 0 <= k < |ids| ==> ids[k] in files)
          && (forall k :: 0 <= k < |replies| ==> replies[k].StatusReply?))
    && (passed ==> s2 == s0 + cmds && c2 == c0)
    && (forall k :: 0 <= k < |s2| - |s0| - 1 ==> replies[k].StatusReply?)
    && (forall k :: 0 <= k < |s2| - |s0| && k < |ids| ==> ids[k] in files)
    && (!connected ==> s2 == s0 && c2 == c0)
    && (connected && !passed ==>
          var n := |s2| - |s0|;
          (n > 0 && !replies[n - 1].StatusReply?) || (n < |ids| && ids[n] !in files))
    && (connected ==> c2 == if |s2| > |s0| && replies[|s2| - |s0| - 1].NullReply? then None else c0)
    && (c2 == c0 || c2 == None)
  }

  /**
   * Where the loop of `add` stops gives `UploadedFiles`: at the end with every
   * file sent, or early at index i, with the i-th SET sent and failed or, for a
   * missing expected file or a disconnected provider, nothing more sent.
   */
  lemma UploadLoopExit(cmds: seq<Command>, ids: seq<string>, files: map<string, ExpectedFile>, replies: seq<Reply>,
                       connected: bool, s0: seq<Command>, s1: seq<Command>,
                       c0: Option<Context>, c1: Option<Context>, failed: bool, i: nat)
    requires |cmds| == |ids| + 1 && |replies| == |ids| + 1 && i <= |ids|
    requires forall k :: 0 <= k < i ==> ids[k] in files && replies[k].StatusReply?
    requires i > 0 ==> connected
    requires !failed ==> i == |ids| && s1 == s0 + cmds[..i] && c1 == c0
    requires failed ==> && i < |ids|
                        && if ids[i] in files && connected
                           then && s1 == s0 + cmds[..i + 1] && !replies[i].StatusReply?
                                && c1 == (if replies[i].NullReply? then None else c0)
                           else s1 == s0 + cmds[..i] && c1 == c0
    ensures UploadedFiles(cmds, ids, files, replies, connected, s0, s1, c0, c1, !failed)
  {
    if i == 0 {
      assert s0 + cmds[..0] == s0;
    }
  }

  /** The file SETs and then, after they all went through, the record's SET make up `add`. */
  lemma AddSteps(cmds: seq<Command>, ids: seq<string>, files: map<string, ExpectedFile>, replies: seq<Reply>,
                 connected: bool, s0: seq<Command>, s1: seq<Command>, s2: seq<Command>,
                 c0: Option<Context>, c1: Option<Context>, c2: Option<Context>, uploaded: bool, passed: bool)
    requires UploadedFiles(cmds, ids, files, replies, connected, s0, s1, c0, c1, uploaded)
    requires !uploaded || !connected ==> s2 == s1 && c2 == c1 && !passed
    requires uploaded && connected ==>
               && s2 == s1 + [cmds[|ids|]]
               && c2 == (if replies[|ids|].NullReply? then None else c1)
               && (passed <==> replies[|ids|].StatusReply?)
    ensures AddedEntry(cmds, ids, files, replies, connected, s0, s2, c0, c2, passed)
  {
    if uploaded && connected {
      TakeNext(cmds, |ids|);
      AppendAssoc(s0, cmds[..|ids|], [cmds[|ids|]]);
      assert cmds[..|ids| + 1] == cmds;
    }
  }

  /** Regrouping a concatenation of three sequences. */
  lemma AppendAssoc<T>(a: seq<T>, b: seq<T>, c: seq<T>)
    ensures (a + b) + c == a + (b + c)
  {
  }

  /** A prefix one longer is the shorter prefix and the next element. */
  lemma TakeNext<T>(s: seq<T>, i: nat)
    requires i < |s|
    ensures s[..i + 1] == s[..i] + [s[i]]
  {
  }

  /** What `lookup` returns: the decoded entry on a hit, the empty entry on any failure. */
  function LookupEntry(connected: bool, hash: string, reply: Reply,
                       deserialize: string -> Option<CacheEntry>): (e: CacheEntry)
    ensures !connected || !reply.StringReply? ==> e == NoEntry
    ensures connected && reply.StringReply? && deserialize(reply.str).Some? ==> e == deserialize(reply.str).value
    ensures connected && reply.StringReply? && deserialize(reply.str).None? ==> e == NoEntry
  {
    if !connected then NoEntry
    else match GetOutcome(RemoteKeyName(hash, CACHE_ENTRY_FILE_NAME), reply)
      case Failure(_) => NoEntry
      case Success(data) =>
        match deserialize(data)
        case Some(e) => e
        case None => NoEntry
  }

  // ---------------------------------------------------------------------------
  // The provider.

  class RedisCacheProvider {
    /** The hiredis context; `None` is the null pointer. */
    var ctx: Option<Context>
    /** Every command sent to the server so far, oldest first. */
    var sent: seq<Command>

    constructor ()
      ensures ctx == None && sent == []
    {
      ctx, sent := None, [];
    }

    predicate IsConnected()
      reads this
    {
      ctx.Some?
    }

    /** Drops the context if there is one; calling it again changes nothing. */
    method Disconnect()
      modifies this`ctx
      ensures !IsConnected() && ctx == None
    {
      if ctx.Some? {
        ctx := None;
      }
    }

    /**
     * Connects and authenticates. `parsed` is the decoded host description (None
     * when decoding failed); `link`, `setTimeoutOk` and `authReply` are the outcomes
     * of the three hiredis calls; `username` and `password` come from the configuration.
     */
    method Connect(parsed: Option<HostDescription>, connectionTimeoutMs: Int32, transferTimeoutMs: Int32,
                   link: LinkOutcome, setTimeoutOk: bool, username: string, password: string, authReply: Reply)
      returns (ok: bool)
      modifies this`ctx, this`sent
      ensures parsed.None? ==> !ok && ctx == old(ctx) && sent == old(sent)
      ensures ok <==> parsed.Some? && link.Linked? && setTimeoutOk && AuthAccepted(AuthPolicy(username, password), authReply)
      ensures ok ==> ctx == Some(Context(parsed.value.host, EffectivePort(parsed.value.port),
                                         MsToTimeval(connectionTimeoutMs), Some(MsToTimeval(transferTimeoutMs))))
      ensures parsed.Some? && !ok ==> ctx == None
      ensures sent == old(sent) + (if parsed.Some? && link.Linked? && setTimeoutOk && AuthPolicy(username, password).SendAuth?
                                   then [Auth(AuthPolicy(username, password).credentials)] else [])
    {
      if parsed.None? {
        return false;
      }
      var port := parsed.value.port;
      if port < 0 {
        port := DEFAULT_PORT;
      }

      match link
      case NoContext =>
        ctx := None;
        return false;
      case LinkError(_) =>
        ctx := Some(Context(parsed.value.host, port, MsToTimeval(connectionTimeoutMs), None));
        Disconnect();
        return false;
      case Linked =>
        ctx := Some(Context(parsed.value.host, port, MsToTimeval(connectionTimeoutMs), None));

      if !setTimeoutOk {
        Disconnect();
        return false;
      }
      ctx := Some(ctx.value.(transferTimeout := Some(MsToTimeval(transferTimeoutMs))));

      if password != [] {
        var credentials := if username == [] then password else username + " " + password;
        sent := sent + [Auth(credentials)];
        if authReply.NullReply? || authReply.ErrorReply? {
          Disconnect();
          return false;
        }
      } else if username != [] {
        Disconnect();
        return false;
      }
      return true;
    }

    /** GET of one key. */
    method GetData(key: string, reply: Reply) returns (r: Result<string, Failure>)
      modifies this`ctx, this`sent
      ensures old(!IsConnected()) ==>
                r == Failure(RuntimeError("Can't GET from a disconnected context")) && ctx == old(ctx) && sent == old(sent)
      ensures old(IsConnected()) ==>
                r == GetOutcome(key, reply) && sent == old(sent) + [Get(key)] &&
                ctx == if reply.NullReply? then None else old(ctx)
    {
      if !IsConnected() {
        return Failure(RuntimeError("Can't GET from a disconnected context"));
      }
      sent := sent + [Get(key)];
      r := GetOutcome(key, reply);
      if reply.NullReply? {
        Disconnect();
      }
    }

    /** SET of one key. */
    method SetData(key: string, data: string, reply: Reply) returns (r: Outcome<Failure>)
      modifies this`ctx, this`sent
      ensures old(!IsConnected()) ==>
                r == Fail(RuntimeError("Can't SET to a disconnected context")) && ctx == old(ctx) && sent == old(sent)
      ensures old(IsConnected()) ==>
                r == SetOutcome(reply) && sent == old(sent) + [Set(key, data)] &&
                ctx == if reply.NullReply? then None else old(ctx)
    {
      if !IsConnected() {
        return Fail(RuntimeError("Can't SET to a disconnected context"));
      }
      sent := sent + [Set(key, data)];
      r := SetOutcome(reply);
      if reply.NullReply? {
        Disconnect();
      }
    }

    /** Looks up the entry record of `hash`; any failure reads as a miss. */
    method Lookup(hash: string, reply: Reply, deserialize: string -> Option<CacheEntry>) returns (entry: CacheEntry)
      modifies this`ctx, this`sent
      ensures entry == LookupEntry(old(IsConnected()), hash, reply, deserialize)
      ensures old(IsConnected()) ==> sent == old(sent) + [Get(RemoteKeyName(hash, CACHE_ENTRY_FILE_NAME))]
      ensures old(!IsConnected()) ==> sent == old(sent) && ctx == old(ctx)
      ensures old(IsConnected()) ==> ctx == if reply.NullReply? then None else old(ctx)
    {
      var data := GetData(RemoteKeyName(hash, CACHE_ENTRY_FILE_NAME), reply);
      if data.Failure? {
        return NoEntry;
      }
      var decoded := deserialize(data.value);
      if decoded.None? {
        return NoEntry;
      }
      entry := decoded.value;
    }

    /** Downloads one file of an entry; the result is what gets written to the target path. */
    method GetFile(hash: string, sourceId: string, isCompressed: bool, reply: Reply, decompress: string -> string)
      returns (r: Result<string, Failure>)
      modifies this`ctx, this`sent
      ensures r.Success? <==> old(IsConnected()) && reply.StringReply?
      ensures r.Success? ==> r.value == if isCompressed then decompress(reply.str) else reply.str
      ensures old(!IsConnected()) ==> r == Failure(RuntimeError("Can't GET from a disconnected context"))
      ensures old(IsConnected()) && !reply.StringReply? ==> r == GetOutcome(RemoteKeyName(hash, sourceId), reply)
      ensures old(IsConnected()) ==> sent == old(sent) + [Get(RemoteKeyName(hash, sourceId))]
      ensures old(IsConnected()) ==> ctx == if reply.NullReply? then None else old(ctx)
      ensures old(!IsConnected()) ==> sent == old(sent) && ctx == old(ctx)
    {
      var data := GetData(RemoteKeyName(hash, sourceId), reply);
      if data.Failure? {
        return Failure(data.error);
      }
      var bytes := data.value;
      if isCompressed {
        bytes := decompress(bytes);
      }
      r := Success(bytes);
    }

    /** One pass of the loop of `add`: looks the file up, reads and maybe compresses it, and SETs it. */
    method UploadFile(hash: string, entry: CacheEntry, files: map<string, ExpectedFile>,
                      read: string -> string, compress: string -> string, id: string, reply: Reply)
      returns (r: Outcome<Failure>)
      modifies this`ctx, this`sent
      ensures id !in files ==> r == Fail(OutOfRange(id)) && ctx == old(ctx) && sent == old(sent)
      ensures id in files && old(!IsConnected()) ==>
                r == Fail(RuntimeError("Can't SET to a disconnected context")) && ctx == old(ctx) && sent == old(sent)
      ensures id in files && old(IsConnected()) ==>
                r == SetOutcome(reply) && sent == old(sent) + [FileCommand(hash, entry, files, read, compress, id)] &&
                ctx == if reply.NullReply? then None else old(ctx)
    {
      if id !in files {
        return Fail(OutOfRange(id));
      }
      var data := UploadData(entry, files[id].path, read, compress);
      r := SetData(RemoteKeyName(hash, id), data, reply);
    }

    /** The loop of `add`: uploads every file of the entry, stopping at the first failure. */
    method UploadFiles(hash: string, entry: CacheEntry, files: map<string, ExpectedFile>,
                       read: string -> string, compress: string -> string, serialize: CacheEntry -> string,
                       replies: seq<Reply>)
      returns (r: Outcome<Failure>)
      requires |replies| == |entry.FileIds()| + 1
      modifies this`ctx, this`sent
      ensures UploadedFiles(AddCommands(hash, entry, files, read, compress, serialize), entry.FileIds(), files, replies,
                            old(IsConnected()), old(sent), sent, old(ctx), ctx, r.Pass?)
    {
      ghost var cmds := AddCommands(hash, entry, files, read, compress, serialize);
      var ids := entry.FileIds();
      var i := 0;
      r := Pass;
      while i < |ids|
        invariant 0 <= i <= |ids|
        invariant sent == old(sent) + cmds[..i]
        invariant ctx == old(ctx)
        invariant i > 0 ==> old(IsConnected())
        invariant forall k :: 0 <= k < i ==> ids[k] in files && replies[k].StatusReply?
      {
        var res := UploadFile(hash, entry, files, read, compress, ids[i], replies[i]);
        AddCommandsAt(hash, entry, files, read, compress, serialize, i);
        TakeNext(cmds, i);
        AppendAssoc(old(sent), cmds[..i], [cmds[i]]);
        if res.Fail? {
          r := res;
          break;
        }
        i := i + 1;
      }
      UploadLoopExit(cmds, ids, files, replies, old(IsConnected()), old(sent), sent, old(ctx), ctx, r.Fail?, i);
    }

    /**
     * Uploads the files of `entry`, then its record. `replies[i]` answers the
     * i-th SET. The first failure stops the upload and is passed on.
     */
    method Add(hash: string, entry: CacheEntry, files: map<string, ExpectedFile>,
               read: string -> string, compress: string -> string, serialize: CacheEntry -> string,
               replies: seq<Reply>)
      returns (r: Outcome<Failure>)
      requires |replies| == |entry.FileIds()| + 1
      modifies this`ctx, this`sent
      ensures AddedEntry(AddCommands(hash, entry, files, read, compress, serialize), entry.FileIds(), files, replies,
                         old(IsConnected()), old(sent), sent, old(ctx), ctx, r.Pass?)
    {
      ghost var cmds := AddCommands(hash, entry, files, read, compress, serialize);
      var ids := entry.FileIds();
      r := UploadFiles(hash, entry, files, read, compress, serialize, replies);
      ghost var uploaded, afterFiles, ctxAfterFiles := r.Pass?, sent, ctx;
      if r.Pass? {
        r := SetData(RemoteKeyName(hash, CACHE_ENTRY_FILE_NAME), serialize(entry), replies[|ids|]);
      }
      AddSteps(cmds, ids, files, replies, old(IsConnected()), old(sent), afterFiles, sent,
               old(ctx), ctxAfterFiles, ctx, uploaded, r.Pass?);
    }
  }
}
