/** Tenant transactions on a shared pool (src/db/transaction.ts): many calls of
    `withTenantTransaction` interleaved step by step, any query of which may fail and
    leave its connection in any state. */
module TenantTransactions {
  import opened Text

  // ----------------------------------------------------------------- context

  datatype Mode = Real | Demo
  datatype Isolation = ReadCommitted | RepeatableRead | Serializable

  datatype RawContext = RawContext(
    organization: Str, actor: Str, session: Maybe<Str>, mode: Maybe<Mode>, request: Str, auth: Str,
    surface: Str, reason: Maybe<Str>, demoWrite: Maybe<bool>, mcp: Maybe<Str>)

  /** A parsed context always has its mode. */
  datatype Context = Context(
    organization: Str, actor: Str, session: Maybe<Str>, mode: Mode, request: Str, auth: Str,
    surface: Str, reason: Maybe<Str>, demoWrite: bool, mcp: Maybe<Str>)

  const DEMO_LINK: Str := Ascii("demo-link")
  const DEMO_LINK_MFA: Str := Ascii("demo-link+mfa")
  const SURFACES: seq<Str> := [Ascii("UI"), Ascii("API"), Ascii("IMPORT"), Ascii("WORKER"), Ascii("MCP")]

  /** `toLowerCase` as far as it can yield an ASCII letter; U+212A is the Kelvin sign. */
  function Lower(c: Unit): Unit {
    if 65 <= c <= 90 then c + 32 else if c == 0x212A then 107 else c
  }

  function LowerText(t: Str): Str {
    seq<Unit>(|t|, i requires 0 <= i < |t| => Lower(t[i]))
  }

  /** `isDemoTransactionAuthMethod` */
  predicate IsDemoAuth(auth: Str) {
    LowerText(auth) == DEMO_LINK || LowerText(auth) == DEMO_LINK_MFA
  }

  predicate SizedText(t: Str, max: nat) {
    1 <= |Trim(t)| <= max
  }

  /** The object schema; `isUuid` stands for the validator of that name. */
  predicate BaseShape(raw: RawContext, isUuid: Str -> bool) {
    && isUuid(raw.organization) && isUuid(raw.actor)
    && (raw.session.Some? ==> isUuid(raw.session.value))
    && (raw.mcp.Some? ==> isUuid(raw.mcp.value))
    && SizedText(raw.request, 200) && SizedText(raw.auth, 100) && raw.surface in SURFACES
    && (raw.reason.Some? ==> SizedText(raw.reason.value, 500))
  }

  function TrimMaybe(t: Maybe<Str>): Maybe<Str> {
    if t.Some? then Some(Trim(t.value)) else None
  }

  /** `validateTenantTransactionContext` */
  function Validate(raw: RawContext, isUuid: Str -> bool): Maybe<Context> {
    if !BaseShape(raw, isUuid) then None
    else
      var auth := Trim(raw.auth);
      var mode := if raw.mode.Some? then raw.mode.value else if IsDemoAuth(auth) then Demo else Real;
      if (mode == Demo) != IsDemoAuth(auth) then None
      else if mode == Demo && raw.session.None? then None
      else if mode != Demo && raw.demoWrite == Some(true) then None
      else Some(Context(raw.organization, raw.actor, raw.session, mode, Trim(raw.request), auth, raw.surface,
                        TrimMaybe(raw.reason), raw.demoWrite == Some(true), raw.mcp))
  }

  /** What the rest of the module relies on. */
  predicate Validated(c: Context) {
    && (c.mode == Demo <==> IsDemoAuth(c.auth)) && (c.mode == Demo ==> c.session.Some?)
    && (c.demoWrite ==> c.mode == Demo)
  }

  /** Accepted exactly when demo mode and demo sign-in go together, a demo session is
      named, and write authorization is carried by demo sign-in only. */
  lemma ValidatedExactly(raw: RawContext, isUuid: Str -> bool)
    ensures var demo := IsDemoAuth(Trim(raw.auth));
            && (Validate(raw, isUuid).Some? <==>
                && BaseShape(raw, isUuid)
                && (raw.mode.Some? ==> (raw.mode.value == Demo <==> demo))
                && (demo ==> raw.session.Some?)
                && (raw.demoWrite == Some(true) ==> demo))
            && (Validate(raw, isUuid).Some? ==> Validated(Validate(raw, isUuid).value))
  {
    hide IsDemoAuth, BaseShape;
  }

  /** A unit that spells a lower-case letter of a word in either case, or stands for itself. */
  predicate SpellsUnit(c: Unit, l: Unit) {
    c == l || (97 <= l <= 122 && c == l - 32) || (l == 107 && c == 0x212A)
  }

  predicate Spells(t: Str, word: Str) {
    |t| == |word| && forall i | 0 <= i < |t| :: SpellsUnit(t[i], word[i])
  }

  /** No capital stands in the word. */
  predicate LowerWord(word: Str) {
    forall i | 0 <= i < |word| :: word[i] < 0x80 && !(65 <= word[i] <= 90)
  }

  lemma LowerSpells(t: Str, word: Str)
    requires LowerWord(word)
    ensures LowerText(t) == word <==> Spells(t, word)
  {
    if LowerText(t) == word {
      forall i | 0 <= i < |t| ensures SpellsUnit(t[i], word[i]) {
        assert LowerText(t)[i] == Lower(t[i]);
      }
    }
  }

  lemma DemoWordsLower()
    ensures LowerWord(Ascii("demo-link")) && LowerWord(Ascii("demo-link+mfa"))
  {
  }

  /** Demo sign-in is one of the two words in any mixture of cases. */
  lemma DemoAuthExactly(t: Str)
    ensures IsDemoAuth(t) <==> Spells(t, Ascii("demo-link")) || Spells(t, Ascii("demo-link+mfa"))
  {
    DemoWordsLower();
    hide Ascii, LowerText, Spells, LowerWord;
    LowerSpells(t, Ascii("demo-link"));
    LowerSpells(t, Ascii("demo-link+mfa"));
  }

  predicate Between(n: nat, least: nat, most: nat) {
    least <= n <= most
  }

  /** What the parts of an accepted context are, one by one. */
  lemma AcceptedExactly(raw: RawContext, isUuid: Str -> bool)
    ensures var demo := IsDemoAuth(Trim(raw.auth));
      Validate(raw, isUuid).Some? <==>
        && isUuid(raw.organization) && isUuid(raw.actor)
        && (raw.session.Some? ==> isUuid(raw.session.value)) && (raw.mcp.Some? ==> isUuid(raw.mcp.value))
        && Between(|Trim(raw.request)|, 1, 200) && Between(|Trim(raw.auth)|, 1, 100)
        && (raw.reason.Some? ==> Between(|Trim(raw.reason.value)|, 1, 500))
        && (raw.surface == Ascii("UI") || raw.surface == Ascii("API") || raw.surface == Ascii("IMPORT")
            || raw.surface == Ascii("WORKER") || raw.surface == Ascii("MCP"))
        && (raw.mode == Some(Demo) ==> demo) && (raw.mode == Some(Real) ==> !demo)
        && (demo ==> raw.session.Some?) && (raw.demoWrite == Some(true) ==> demo)
  {
    hide IsDemoAuth, Ascii, Trim;
  }

  // -------------------------------------------------------------- the server

  datatype Setting =
    | OrganizationId | ActorId | SessionId | SessionMode | RequestId | AuthMethod | SourceSurface | Reason
    | McpConnectionId | DemoWriteAuthorized

  /** A transaction block that saw an error accepts only its end. */
  datatype Phase = Idle | Open | Aborted

  /** What a session remembers: transaction-local settings, isolation, timeout, and the
      session whose demo lease was found live and is held. */
  datatype Connection = Connection(
    phase: Phase, settings: map<Setting, Str>, isolation: Maybe<Isolation>, timeout: bool, lease: Maybe<Str>)

  const CLEAN: Connection := Connection(Idle, map[], None, false, None)

  datatype Command =
    | Begin | SetIsolation(level: Isolation) | SetTimeout | SetConfig(setting: Setting, text: Str) | AssertLease
    | Work | Commit

  function OrEmpty(t: Maybe<Str>): Str {
    if t.Some? then t.value else []
  }

  function ModeText(m: Mode): Str {
    if m == Demo then Ascii("demo") else Ascii("real")
  }

  /** The value each setting should have. */
  function Wanted(c: Context, x: Setting): Str {
    match x
    case OrganizationId => c.organization
    case ActorId => c.actor
    case SessionId => OrEmpty(c.session)
    case SessionMode => ModeText(c.mode)
    case RequestId => c.request
    case AuthMethod => c.auth
    case SourceSurface => c.surface
    case Reason => OrEmpty(c.reason)
    case McpConnectionId => OrEmpty(c.mcp)
    case DemoWriteAuthorized => if c.demoWrite then Ascii("true") else Ascii("false")
  }

  /** The order in which they are set. */
  function Position(x: Setting): (i: nat)
    ensures i < 10
  {
    match x
    case OrganizationId => 0
    case ActorId => 1
    case SessionId => 2
    case SessionMode => 3
    case RequestId => 4
    case AuthMethod => 5
    case SourceSurface => 6
    case Reason => 7
    case McpConnectionId => 8
    case DemoWriteAuthorized => 9
  }

  const ORDER: seq<Setting> :=
    [OrganizationId, ActorId, SessionId, SessionMode, RequestId, AuthMethod, SourceSurface, Reason, McpConnectionId,
     DemoWriteAuthorized]

  /** The statements of one call, in order. */
  function Script(c: Context, level: Isolation): seq<Command> {
    [Begin, SetIsolation(level), SetTimeout]
    + seq(10, i requires 0 <= i < 10 => SetConfig(ORDER[i], Wanted(c, ORDER[i])))
    + (if c.mode == Demo then [AssertLease] else []) + [Work, Commit]
  }

  /** PostgreSQL refuses everything but the end of an aborted block. */
  predicate Accepts(n: Connection, command: Command) {
    n.phase != Aborted || command == Commit
  }

  /** Effect of a statement that succeeds. Outside a block the local forms leave nothing
      behind, and BEGIN inside one changes nothing. */
  function Serve(n: Connection, command: Command): Connection {
    match command
    case Begin => if n.phase == Idle then CLEAN.(phase := Open) else n
    case SetIsolation(level) => if n.phase == Open then n.(isolation := Some(level)) else n
    case SetTimeout => if n.phase == Open then n.(timeout := true) else n
    case SetConfig(setting, text) => if n.phase == Open then n.(settings := n.settings[setting := text]) else n
    case AssertLease =>
      if n.phase == Open && SessionId in n.settings then n.(lease := Some(n.settings[SessionId])) else n
    case Work => n
    case Commit => CLEAN
  }

  /** The connection after the first `i` statements of a call, from a clean start. */
  function Served(script: seq<Command>, i: nat): Connection
    requires i <= |script|
  {
    if i == 0 then CLEAN else Serve(Served(script, i - 1), script[i - 1])
  }

  /** What `work` may rely on: its own ten settings, isolation and timeout, and in demo
      mode a live lease of its own session, in an open block. */
  predicate Prepared(n: Connection, c: Context, level: Isolation) {
    && n.phase == Open && (forall x: Setting :: x in n.settings && n.settings[x] == Wanted(c, x))
    && n.isolation == Some(level) && n.timeout
    && n.lease == if c.mode == Demo then Some(OrEmpty(c.session)) else None
  }

  lemma StartServed(s: seq<Command>, level: Isolation)
    requires |s| > 3 && s[0] == Begin && s[1] == SetIsolation(level) && s[2] == SetTimeout
    ensures Served(s, 3) == Connection(Open, map[], Some(level), true, None)
  {
    assert Served(s, 1) == CLEAN.(phase := Open);
    assert Served(s, 2) == Serve(Served(s, 1), s[1]);
  }

  /** Each setting, once set, keeps its text. */
  lemma {:induction false} SettingsServed(s: seq<Command>, c: Context, level: Isolation, j: nat)
    requires j <= 10 && |s| > 13 && Served(s, 3) == Connection(Open, map[], Some(level), true, None)
    requires forall i | 0 <= i < 10 :: s[3 + i] == SetConfig(ORDER[i], Wanted(c, ORDER[i]))
    ensures var n := Served(s, 3 + j);
            && n == Connection(Open, n.settings, Some(level), true, None)
            && forall x: Setting | Position(x) < j :: x in n.settings && n.settings[x] == Wanted(c, x)
    decreases j
  {
    hide Wanted;
    if j > 0 {
      SettingsServed(s, c, level, j - 1);
      var n, m := Served(s, 2 + j), Served(s, 3 + j);
      assert s[3 + (j - 1)] == SetConfig(ORDER[j - 1], Wanted(c, ORDER[j - 1]));
      assert m == Serve(n, s[2 + j]);
      forall x: Setting | Position(x) < j ensures x in m.settings && m.settings[x] == Wanted(c, x) {
        OrderPosition(x, j - 1);
      }
    }
  }

  lemma OrderPosition(x: Setting, i: nat)
    requires i < 10
    ensures ORDER[i] == x <==> Position(x) == i
  {
  }

  lemma LeaseServed(s: seq<Command>, n: Connection)
    requires |s| > 13 && s[13] == AssertLease && n == Served(s, 13) && n.phase == Open && SessionId in n.settings
    ensures Served(s, 14) == n.(lease := Some(n.settings[SessionId]))
  {
  }

  lemma ScriptShape(c: Context, level: Isolation)
    ensures var s := Script(c, level);
      && |s| == (if c.mode == Demo then 16 else 15)
      && s[0] == Begin && s[1] == SetIsolation(level) && s[2] == SetTimeout
      && (forall i | 0 <= i < 10 :: s[3 + i] == SetConfig(ORDER[i], Wanted(c, ORDER[i])))
      && (c.mode == Demo ==> s[13] == AssertLease)
      && s[|s| - 2] == Work && s[|s| - 1] == Commit
    ensures forall i | 0 <= i < |Script(c, level)| - 2 :: Script(c, level)[i] != Work && Script(c, level)[i] != Commit
  {
    hide Wanted;
  }

  /** Up to `work` the script leaves exactly the wanted connection. */
  lemma ScriptPrepares(c: Context, level: Isolation)
    ensures var script := Script(c, level); var w := |script| - 2;
            w >= 13 && script[w] == Work && script[w + 1] == Commit && Prepared(Served(script, w), c, level)
    ensures forall i | 0 <= i < |Script(c, level)| - 2 :: Script(c, level)[i] != Work && Script(c, level)[i] != Commit
  {
    hide Served, Wanted, Script;
    var s := Script(c, level);
    ScriptShape(c, level);
    StartServed(s, level);
    SettingsServed(s, c, level, 10);
    assert Wanted(c, SessionId) == OrEmpty(c.session) by {
      SessionWanted(c);
    }
    if c.mode == Demo {
      LeaseServed(s, Served(s, 13));
    }
  }

  lemma SessionWanted(c: Context)
    ensures Wanted(c, SessionId) == OrEmpty(c.session)
  {
  }

  // -------------------------------------------------------- the interleaving

  datatype Outcome = Returned | Threw
  datatype Counter =
    | Waiting | Before(i: nat) | RollingBack | Releasing(outcome: Outcome, discard: bool) | Done(result: Outcome)

  /** One call: where it stands, its client, how often it released it, and whether its
      COMMIT came back and found an open block. */
  datatype Call = Call(
    context: Context, level: Isolation, counter: Counter, client: Maybe<nat>, releases: nat,
    commitReturned: bool, committed: bool, workAborted: bool)

  datatype Holder = Pooled | Held(owner: nat) | Discarded

  datatype State = State(calls: map<nat, Call>, connections: map<nat, Connection>, holders: map<nat, Holder>)

  datatype Event =
    | Arrive(k: nat, context: Context, level: Isolation)
    | Connect(k: nat, client: nat)
    | ConnectFails(k: nat)
    | Succeed(k: nat)
    | WorkDone(k: nat, aborted: bool)
    | Fail(k: nat, left: Connection)
    | RollBack(k: nat)
    | RollbackFails(k: nat, left: Connection)
    | Release(k: nat)

  predicate Holding(s: State, k: nat) {
    && k in s.calls && s.calls[k].client.Some? && s.calls[k].client.value in s.connections
    && s.calls[k].client.value in s.holders
  }

  predicate AtCommand(s: State, k: nat) {
    Holding(s, k) && s.calls[k].counter.Before? && s.calls[k].counter.i < |Script(s.calls[k].context, s.calls[k].level)|
  }

  function Current(s: State, k: nat): Command
    requires AtCommand(s, k)
  {
    Script(s.calls[k].context, s.calls[k].level)[s.calls[k].counter.i]
  }

  function Link(s: State, k: nat): Connection
    requires Holding(s, k)
  {
    s.connections[s.calls[k].client.value]
  }

  predicate Enabled(s: State, e: Event) {
    match e
    case Arrive(k, context, level) => k !in s.calls && Validated(context)
    case Connect(k, client) =>
      && k in s.calls && s.calls[k].counter.Waiting? && (client in s.connections <==> client in s.holders)
      && (client in s.holders ==> s.holders[client].Pooled?)
    case ConnectFails(k) => k in s.calls && s.calls[k].counter.Waiting?
    case Succeed(k) => AtCommand(s, k) && Current(s, k) != Work && Accepts(Link(s, k), Current(s, k))
    case WorkDone(k, aborted) => AtCommand(s, k) && Current(s, k) == Work
    case Fail(k, left) => AtCommand(s, k)
    case RollBack(k) => Holding(s, k) && s.calls[k].counter.RollingBack?
    case RollbackFails(k, left) => Holding(s, k) && s.calls[k].counter.RollingBack?
    case Release(k) => Holding(s, k) && s.calls[k].counter.Releasing?
  }

  function Set(s: State, k: nat, call: Call, n: Connection): State
    requires Holding(s, k)
  {
    s.(calls := s.calls[k := call], connections := s.connections[s.calls[k].client.value := n])
  }

  /** One step of one call; the others stand still. */
  function After(s: State, e: Event): State
    requires Enabled(s, e)
  {
    match e
    case Arrive(k, context, level) =>
      s.(calls := s.calls[k := Call(context, level, Waiting, None, 0, false, false, false)])
    case Connect(k, client) =>
      State(s.calls[k := s.calls[k].(counter := Before(0), client := Some(client))],
            if client in s.connections then s.connections else s.connections[client := CLEAN],
            s.holders[client := Held(k)])
    case ConnectFails(k) => s.(calls := s.calls[k := s.calls[k].(counter := Done(Threw))])
    case Succeed(k) =>
      var call, n := s.calls[k], Link(s, k);
      if Current(s, k) == Commit then
        Set(s, k, call.(counter := Releasing(Returned, false), commitReturned := true, committed := n.phase == Open),
            Serve(n, Commit))
      else Set(s, k, call.(counter := Before(call.counter.i + 1)), Serve(n, Current(s, k)))
    case WorkDone(k, aborted) =>
      var call, n := s.calls[k], Link(s, k);
      Set(s, k, call.(counter := Before(call.counter.i + 1), workAborted := aborted),
          if aborted then n.(phase := Aborted) else n)
    case Fail(k, left) => Set(s, k, s.calls[k].(counter := RollingBack), left)
    case RollBack(k) => Set(s, k, s.calls[k].(counter := Releasing(Threw, false)), CLEAN)
    case RollbackFails(k, left) => Set(s, k, s.calls[k].(counter := Releasing(Threw, true)), left)
    case Release(k) =>
      var call := s.calls[k];
      s.(calls := s.calls[k := call.(counter := Done(call.counter.outcome), releases := call.releases + 1)],
         holders := s.holders[call.client.value := if call.counter.discard then Discarded else Pooled])
  }

  const START: State := State(map[], map[], map[])

  // --------------------------------------------------------------- invariant

  /** An unfinished call holds its client alone; its connection is what its statements
      so far made it. */
  predicate CallSound(s: State, k: nat)
    requires k in s.calls
  {
    var call := s.calls[k];
    && Validated(call.context)
    && (call.committed ==> call.commitReturned)
    && (call.client.Some? && !call.counter.Done? ==> Holding(s, k) && s.holders[call.client.value] == Held(k))
    && match call.counter
       case Waiting => call.client.None? && call.releases == 0 && !call.commitReturned
       case Before(i) => call.client.Some? && call.releases == 0 && !call.commitReturned && Underway(s, k, i)
       case RollingBack => call.client.Some? && call.releases == 0 && !call.commitReturned
       case Releasing(outcome, discard) =>
         && call.client.Some? && call.releases == 0 && (!discard ==> Holding(s, k) && Link(s, k) == CLEAN)
         && Settled(call, outcome)
       case Done(result) =>
         && call.releases == (if call.client.Some? then 1 else 0)
         && (result == Returned ==> call.client.Some?) && Settled(call, result)
  }

  /** A result comes only after COMMIT returned, and the block was committed unless
      `work` had swallowed an error of it. */
  predicate Settled(call: Call, outcome: Outcome) {
    && (outcome == Returned <==> call.commitReturned)
    && (outcome == Returned ==> (call.committed <==> !call.workAborted))
  }

  predicate Underway(s: State, k: nat, i: nat)
    requires k in s.calls
  {
    var call := s.calls[k];
    var script := Script(call.context, call.level);
    && Holding(s, k) && i < |script|
    && (i <= |script| - 2 ==> Link(s, k) == Served(script, i))
    && (i == |script| - 1 ==> Link(s, k).phase == if call.workAborted then Aborted else Open)
  }

  /** A client in the pool is clean; a held one belongs to an unfinished call that has it. */
  predicate ClientSound(s: State, c: nat)
    requires c in s.holders
  {
    && c in s.connections
    && (s.holders[c].Pooled? ==> s.connections[c] == CLEAN)
    && (s.holders[c].Held? ==>
        && s.holders[c].owner in s.calls && s.calls[s.holders[c].owner].client == Some(c)
        && !s.calls[s.holders[c].owner].counter.Done?)
  }

  ghost predicate Sound(s: State) {
    && (forall k <- s.calls :: CallSound(s, k))
    && (forall c <- s.holders :: ClientSound(s, c))
    && (forall c <- s.connections :: c in s.holders)
  }

  /** Two unfinished calls never share a client. */
  lemma ClientsExclusive(s: State, k: nat, j: nat)
    requires Sound(s) && k in s.calls && j in s.calls
    requires s.calls[k].client.Some? && s.calls[k].client == s.calls[j].client
    requires !s.calls[k].counter.Done? && !s.calls[j].counter.Done?
    ensures k == j
  {
    assert CallSound(s, k) && CallSound(s, j);
  }

  /** A step touches its own call, its own connection and its own client only. */
  lemma OthersKept(s: State, e: Event, j: nat)
    requires Sound(s) && Enabled(s, e) && j in s.calls && j != e.k
    ensures j in After(s, e).calls && CallSound(After(s, e), j)
  {
    hide Script, Serve, Served, Validated, Accepts, Settled;
    var t := After(s, e);
    assert CallSound(s, j) && t.calls[j] == s.calls[j];
    if s.calls[j].client.Some? && !s.calls[j].counter.Done? {
      var c := s.calls[j].client.value;
      assert s.holders[c] == Held(j);
      if e.k in s.calls && s.calls[e.k].client.Some? && !s.calls[e.k].counter.Done? {
        assert CallSound(s, e.k);
        assert s.calls[e.k].client.value != c;
      }
      assert t.connections[c] == s.connections[c] && t.holders[c] == s.holders[c];
    }
  }

  lemma OwnKept(s: State, e: Event)
    requires Sound(s) && Enabled(s, e)
    ensures e.k in After(s, e).calls && CallSound(After(s, e), e.k)
  {
    hide Script, Validated, Served, Serve, IsDemoAuth;
    var t := After(s, e);
    if e.k in s.calls {
      assert CallSound(s, e.k);
      var call := s.calls[e.k];
      ScriptPrepares(call.context, call.level);
      if e.Connect? {
        ConnectServes(s, e.client, Script(call.context, call.level));
      }
      if e.Succeed? {
        NextServes(s, e.k);
      }
    }
  }

  lemma ConnectServes(s: State, c: nat, script: seq<Command>)
    requires Sound(s) && (c in s.connections <==> c in s.holders)
    requires c in s.holders ==> s.holders[c].Pooled?
    ensures c in s.connections ==> s.connections[c] == CLEAN
    ensures Served(script, 0) == CLEAN
  {
    if c in s.holders {
      assert ClientSound(s, c);
    }
  }

  lemma NextServes(s: State, k: nat)
    requires AtCommand(s, k) && Current(s, k) != Work
    ensures var script := Script(s.calls[k].context, s.calls[k].level); var i := s.calls[k].counter.i;
            Served(script, i + 1) == Serve(Served(script, i), Current(s, k))
    ensures Serve(Link(s, k), Commit) == CLEAN
  {
  }

  lemma ClientsKept(s: State, e: Event, c: nat)
    requires Sound(s) && Enabled(s, e) && c in After(s, e).holders
    ensures ClientSound(After(s, e), c)
  {
    hide Script, Serve, Served, Validated, Accepts, Settled;
    var t := After(s, e);
    if c in s.holders {
      assert ClientSound(s, c);
    }
    if e.k in s.calls {
      assert CallSound(s, e.k);
    }
  }

  lemma SoundKept(s: State, e: Event)
    requires Sound(s) && Enabled(s, e)
    ensures Sound(After(s, e))
  {
    hide CallSound, ClientSound, Enabled;
    var t := After(s, e);
    forall k <- t.calls ensures CallSound(t, k) {
      OwnKept(s, e);
      if k != e.k {
        CallsFrom(s, e, k);
        OthersKept(s, e, k);
      }
    }
    forall c <- t.holders ensures ClientSound(t, c) {
      ClientsKept(s, e, c);
    }
    ConnectionsHeld(s, e);
  }

  lemma CallsFrom(s: State, e: Event, k: nat)
    requires Enabled(s, e) && k in After(s, e).calls && k != e.k
    ensures k in s.calls
  {
  }

  lemma ConnectionsHeld(s: State, e: Event)
    requires Sound(s) && Enabled(s, e)
    ensures forall c <- After(s, e).connections :: c in After(s, e).holders
  {
    hide Script, Serve, Served, Validated, Accepts, CallSound, ClientSound;
  }

  // --------------------------------------------------------------------- runs

  predicate Run(states: seq<State>, events: seq<Event>) {
    && |states| == |events| + 1 && states[0] == START
    && forall i | 0 <= i < |events| :: Enabled(states[i], events[i]) && states[i + 1] == After(states[i], events[i])
  }

  lemma {:induction false} RunsSound(states: seq<State>, events: seq<Event>, i: nat)
    requires Run(states, events) && i < |states|
    ensures Sound(states[i])
  {
    if i > 0 {
      RunsSound(states, events, i - 1);
      SoundKept(states[i - 1], events[i - 1]);
    }
  }

  /** Every state of every run: pooled clients have no transaction and no settings; work
      is about to run only on its own call's settings, and only with a live lease of its
      own session in demo mode; a finished call released its client exactly once; a result
      was returned only after COMMIT returned. */
  lemma RunsSafe(states: seq<State>, events: seq<Event>, i: nat)
    requires Run(states, events) && i < |states|
    ensures forall c <- states[i].holders :: states[i].holders[c].Pooled? ==>
      c in states[i].connections && states[i].connections[c] == CLEAN
    ensures forall k <- states[i].calls :: AtCommand(states[i], k) && Current(states[i], k) == Work ==>
      && Prepared(Link(states[i], k), states[i].calls[k].context, states[i].calls[k].level)
      && states[i].holders[states[i].calls[k].client.value] == Held(k)
    ensures forall k <- states[i].calls :: (states[i].calls[k].releases ==
      if states[i].calls[k].counter.Done? && states[i].calls[k].client.Some? then 1 else 0)
    ensures forall k <- states[i].calls :: states[i].calls[k].counter == Done(Returned) ==>
      && states[i].calls[k].commitReturned
      && (states[i].calls[k].committed <==> !states[i].calls[k].workAborted)
  {
    RunsSound(states, events, i);
    var s := states[i];
    forall c <- s.holders | s.holders[c].Pooled? ensures c in s.connections && s.connections[c] == CLEAN {
      assert ClientSound(s, c);
    }
    forall k <- s.calls
      ensures s.calls[k].releases == if s.calls[k].counter.Done? && s.calls[k].client.Some? then 1 else 0
      ensures s.calls[k].counter == Done(Returned) ==>
        s.calls[k].commitReturned && (s.calls[k].committed <==> !s.calls[k].workAborted)
    {
      hide Script;
      assert CallSound(s, k);
    }
    forall k <- s.calls | AtCommand(s, k) && Current(s, k) == Work
      ensures Prepared(Link(s, k), s.calls[k].context, s.calls[k].level)
      ensures s.holders[s.calls[k].client.value] == Held(k)
    {
      WorkPrepared(s, k);
    }
  }

  /** A ROLLBACK of call `k` failed among the first `i` events. */
  predicate RollbackFailed(events: seq<Event>, i: nat, k: nat)
    requires i <= |events|
  {
    exists j | 0 <= j < i :: events[j].RollbackFails? && events[j].k == k
  }

  lemma StepReleases(s: State, e: Event, k: nat)
    requires Enabled(s, e) && k in After(s, e).calls
    ensures var after := After(s, e).calls[k].counter;
      && (e.RollbackFails? && e.k == k ==> after.Releasing? && after.discard)
      && (k !in s.calls ==> after.Waiting?)
      && (k in s.calls && !(e.RollbackFails? && e.k == k) ==>
            var before := s.calls[k].counter;
            && (before.Done? ==> after.Done?)
            && (before.Releasing? ==> after == before || after.Done?)
            && (!before.Releasing? && after.Releasing? ==> !after.discard))
  {
    hide Script, Serve, Validated, Accepts;
  }

  lemma StepKeepsCalls(s: State, e: Event)
    requires Enabled(s, e)
    ensures e.k in After(s, e).calls && forall k <- s.calls :: k in After(s, e).calls
    ensures e.RollbackFails? ==> e.k in s.calls && s.calls[e.k].counter.RollingBack?
  {
    hide Script, Serve, Validated, Accepts;
  }

  lemma {:induction false} DiscardedExactly(states: seq<State>, events: seq<Event>, i: nat, k: nat)
    requires Run(states, events) && i < |states|
    ensures RollbackFailed(events, i, k) ==>
      k in states[i].calls && (states[i].calls[k].counter.Releasing? || states[i].calls[k].counter.Done?)
    ensures k in states[i].calls && states[i].calls[k].counter.Releasing? ==>
      (states[i].calls[k].counter.discard <==> RollbackFailed(events, i, k))
  {
    if i > 0 {
      DiscardedExactly(states, events, i - 1, k);
      var s, e, t := states[i - 1], events[i - 1], states[i];
      hide Enabled, After, Script;
      assert Enabled(s, e) && t == After(s, e);
      StepKeepsCalls(s, e);
      if k in t.calls {
        StepReleases(s, e, k);
      }
    }
  }

  /** A released client goes back to the pool, unless a ROLLBACK of its call failed. */
  lemma ReleasedExactly(states: seq<State>, events: seq<Event>, i: nat)
    requires Run(states, events) && i < |events| && events[i].Release?
    ensures var k := events[i].k;
      && k in states[i].calls && states[i].calls[k].client.Some?
      && states[i].calls[k].client.value in states[i + 1].holders
      && states[i + 1].holders[states[i].calls[k].client.value] ==
         if RollbackFailed(events, i, k) then Discarded else Pooled
  {
    DiscardedExactly(states, events, i, events[i].k);
    hide Script, RollbackFailed;
    assert Enabled(states[i], events[i]) && states[i + 1] == After(states[i], events[i]);
  }

  lemma WorkPrepared(s: State, k: nat)
    requires Sound(s) && AtCommand(s, k) && Current(s, k) == Work
    ensures Prepared(Link(s, k), s.calls[k].context, s.calls[k].level)
    ensures s.holders[s.calls[k].client.value] == Held(k)
  {
    hide Script, Served, Prepared;
    assert CallSound(s, k);
    ScriptPrepares(s.calls[k].context, s.calls[k].level);
  }

  // ------------------------------------------------- what the caller asked for

  function OrBlank(t: Maybe<Str>): Str {
    match t
    case None => []
    case Some(text) => text
  }

  /** The ten settings of a call, read off the context as its caller passed it. */
  predicate WorksAs(raw: RawContext, settings: map<Setting, Str>) {
    (forall x: Setting :: x in settings) && CallerSet(raw, settings) && ModeSet(raw, settings)
  }

  predicate CallerSet(raw: RawContext, settings: map<Setting, Str>)
    requires forall x: Setting :: x in settings
  {
    && settings[OrganizationId] == raw.organization && settings[ActorId] == raw.actor
    && settings[SessionId] == OrBlank(raw.session)
    && settings[RequestId] == Trim(raw.request) && settings[AuthMethod] == Trim(raw.auth)
    && settings[SourceSurface] == raw.surface
    && settings[Reason] == (if raw.reason.Some? then Trim(raw.reason.value) else [])
    && settings[McpConnectionId] == OrBlank(raw.mcp)
  }

  predicate ModeSet(raw: RawContext, settings: map<Setting, Str>)
    requires forall x: Setting :: x in settings
  {
    && settings[SessionMode] == (if IsDemoAuth(Trim(raw.auth)) then Ascii("demo") else Ascii("real"))
    && settings[DemoWriteAuthorized] == (if raw.demoWrite == Some(true) then Ascii("true") else Ascii("false"))
  }

  /** A connection ready for the work of that caller: an open block with its settings, the
      isolation asked for and the timeout, and for demo sign-in the lease of its session. */
  predicate ReadyFor(raw: RawContext, level: Isolation, n: Connection) {
    && n.phase == Open && n.isolation == Some(level) && n.timeout && WorksAs(raw, n.settings)
    && n.lease == if IsDemoAuth(Trim(raw.auth)) then raw.session else None
  }

  lemma PreparedReady(raw: RawContext, isUuid: Str -> bool, level: Isolation, n: Connection)
    requires Validate(raw, isUuid).Some? && Prepared(n, Validate(raw, isUuid).value, level)
    ensures ReadyFor(raw, level, n)
  {
    hide IsDemoAuth, BaseShape, Ascii, Trim;
  }

  /** A call keeps the context and isolation it arrived with. */
  lemma {:induction false} ContextStays(states: seq<State>, events: seq<Event>, j: nat, i: nat)
    requires Run(states, events) && j < i < |states| && events[j].Arrive?
    ensures events[j].k in states[i].calls
    ensures var call := states[i].calls[events[j].k]; call.context == events[j].context && call.level == events[j].level
  {
    if j + 1 < i {
      ContextStays(states, events, j, i - 1);
      StepKeepsContext(states[i - 1], events[i - 1], events[j].k);
    }
  }

  lemma StepKeepsContext(s: State, e: Event, k: nat)
    requires Enabled(s, e) && k in s.calls
    ensures k in After(s, e).calls && After(s, e).calls[k].context == s.calls[k].context
    ensures After(s, e).calls[k].level == s.calls[k].level
  {
    hide Script, Serve, Validated;
  }

  /** In every state of every run in which the work of a call is about to run, its own client
      is ready for exactly what its caller passed. */
  lemma RunsReady(states: seq<State>, events: seq<Event>, j: nat, i: nat, k: nat, raw: RawContext, isUuid: Str -> bool,
                  level: Isolation)
    requires Run(states, events) && j < i < |states| && Validate(raw, isUuid).Some?
    requires events[j] == Arrive(k, Validate(raw, isUuid).value, level)
    requires AtCommand(states[i], k) && Current(states[i], k) == Work
    ensures ReadyFor(raw, level, Link(states[i], k))
    ensures states[i].holders[states[i].calls[k].client.value] == Held(k)
  {
    RunsSound(states, events, i);
    ContextStays(states, events, j, i);
    hide Run, Sound, Validate, Prepared, ReadyFor, Script;
    WorkPrepared(states[i], k);
    PreparedReady(raw, isUuid, level, Link(states[i], k));
  }
}
