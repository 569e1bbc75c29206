/** Receipt-driven injection of MCP servers into a project file that the user edits too. */
module McpFileInjection {
  import opened JsonValues
  import opened OwnedOverlay

  const SERVERS_KEY := "mcpServers"

  /** The project's `mcp.json`, as far as reading and parsing it can tell. */
  datatype TargetFile = NoFile | Unreadable | Malformed(text: string) | Parsed(value: Json)

  /** The machine-local receipt listing the names CC-Panes wrote. */
  datatype ReceiptFile = NoReceipt | Garbage(text: string) | Receipt(value: Json)

  /** Where a sync is cut short: at the target write, or after it and before the receipt write. */
  datatype Fault = NoFault | AtTarget | AtReceipt

  datatype SyncError = TargetUnreadable | TargetWriteFailed | ReceiptWriteFailed

  datatype Outcome = Outcome(written: bool, injected: nat, removed: nat, collisions: set<string>)

  /** A call returns, or panics: `apply_desired` expects an `mcpServers` member to be an object. */
  datatype Report = Returned(result: Result<Outcome, SyncError>) | Panicked

  const NOTHING := Outcome(false, 0, 0, {})

  type Servers = map<string, Json>

  // ------------------------------------------------------------------ receipt

  /** A missing, corrupt or ill-shaped receipt owns nothing; non-string names are dropped. */
  function ReadReceipt(file: ReceiptFile): set<string> {
    match file
    case Receipt(value) =>
      (match value.Get("servers")
       case Some(JArray(names)) => set name | name in names && name.JString? :: name.text
       case _ => {})
    case _ => {}
  }

  /** The receipt body round-trips: reading it back yields exactly the names written. */
  method ReceiptBody(names: set<string>) returns (body: Json)
    ensures ReadReceipt(Receipt(body)) == names
  {
    var todo, listed := names, [];
    while todo != {}
      invariant todo <= names
      invariant forall n :: n in names - todo <==> JString(n) in listed
      invariant forall item :: item in listed ==> item.JString?
      decreases todo
    {
      var name :| name in todo;
      todo, listed := todo - {name}, listed + [JString(name)];
    }
    body := JObject(map["servers" := JArray(listed)]);
    var read := ReadReceipt(Receipt(body));
    forall n ensures n in read <==> n in names {
      if n in names {
        assert JString(n) in listed;
      }
    }
  }

  // ------------------------------------------------------- what a sync should do

  /** What the user and CC-Panes see between two syncs. */
  datatype FileState = FileState(target: TargetFile, owned: set<string>)

  /** The top-level members of a target; a file without an object shows none. */
  function Fields(target: TargetFile): map<string, Json> {
    if target.Parsed? && target.value.JObject? then target.value.fields else map[]
  }

  /** The server map of a target; a file without one shows no server. */
  function ServersOf(target: TargetFile): Servers {
    var fields := Fields(target);
    if SERVERS_KEY in fields && fields[SERVERS_KEY].JObject? then fields[SERVERS_KEY].fields else map[]
  }

  /** The entries that are not ours. */
  function UserView(s: FileState): Servers {
    Foreign(ServersOf(s.target), s.owned)
  }

  /** Every top-level key but the server map. */
  function OtherKeys(target: TargetFile): map<string, Json> {
    map k | k in Fields(target) && k != SERVERS_KEY :: Fields(target)[k]
  }

  /** An absent file, or an object whose server map is absent or an object. */
  predicate Editable(target: TargetFile) {
    && (target.NoFile? || (target.Parsed? && target.value.JObject?))
    && (SERVERS_KEY in Fields(target) ==> Fields(target)[SERVERS_KEY].JObject?)
  }

  function WithServers(target: TargetFile, servers: Servers): TargetFile {
    Parsed(JObject(Fields(target)[SERVERS_KEY := JObject(servers)]))
  }

  function Counts(s: FileState, desired: Servers): Outcome {
    var servers := ServersOf(s.target);
    Outcome(false,
            |Refreshed(servers, desired, s.owned)| + |Fresh(servers, s.owned, desired.Keys)|,
            |Dropped(servers, desired, s.owned)|,
            Clashing(servers, s.owned, desired.Keys))
  }

  /** What a sync sets out to do, before it writes anything. */
  datatype Plan =
    | Abort(error: SyncError)
    | Panic
    | Leave(outcome: Outcome)
    | ForgetReceipt(outcome: Outcome)
    | Rewrite(doc: TargetFile, next: set<string>, outcome: Outcome)

  function Planned(s: FileState, desired: Servers): Plan {
    if s.target.Unreadable? then Abort(TargetUnreadable)
    else if s.target.Malformed? || (s.target.Parsed? && !s.target.value.JObject?) then Leave(NOTHING)
    else if !Editable(s.target) then Panic
    else if s.target.NoFile? && desired == map[] then
      (if s.owned == {} then Leave(NOTHING) else ForgetReceipt(Counts(s, desired)))
    else
      var doc := WithServers(s.target, Overlay(UserView(s), desired));
      var next := Injected(UserView(s), desired);
      if doc == s.target && next == s.owned then Leave(Counts(s, desired))
      else Rewrite(doc, next, Counts(s, desired))
  }

  /** The state a sync leaves, whatever the files hold and wherever it is cut short. */
  function Synced(s: FileState, desired: Servers, fault: Fault): FileState {
    match Planned(s, desired)
    case Abort(_) => s
    case Panic => s
    case Leave(_) => s
    case ForgetReceipt(_) => if fault == AtReceipt then s else s.(owned := {})
    case Rewrite(doc, next, _) =>
      match fault
      case NoFault => FileState(doc, next)
      case AtTarget => s
      case AtReceipt => s.(target := doc)
  }

  /** What a sync reports. */
  function Reported(s: FileState, desired: Servers, fault: Fault): Report {
    match Planned(s, desired)
    case Abort(error) => Returned(Failure(error))
    case Panic => Panicked
    case Leave(outcome) => Returned(Success(outcome))
    case ForgetReceipt(outcome) => Returned(if fault == AtReceipt then Failure(ReceiptWriteFailed) else Success(outcome))
    case Rewrite(_, _, outcome) =>
      match fault
      case NoFault => Returned(Success(outcome.(written := true)))
      case AtTarget => Returned(Failure(TargetWriteFailed))
      case AtReceipt => Returned(Failure(ReceiptWriteFailed))
  }

  // ------------------------------------------------------------- the operation

  /** Everything `sync_project_mcp_file` works out in memory before it writes. */
  method Decide(target: TargetFile, owned: set<string>, desired: Servers) returns (plan: Plan)
    ensures plan == Planned(FileState(target, owned), desired)
    ensures target.Unreadable? ==> plan == Abort(TargetUnreadable)
    ensures target.Malformed? || (target.Parsed? && !target.value.JObject?) ==> plan == Leave(Outcome(false, 0, 0, {}))
    ensures (target.Parsed? && target.value.JObject? && "mcpServers" in target.value.fields
             && !target.value.fields["mcpServers"].JObject?) ==> plan == Panic
  {
    if target.Unreadable? { return Abort(TargetUnreadable); }
    if target.Malformed? || (target.Parsed? && !target.value.JObject?) { return Leave(NOTHING); }
    if target.NoFile? && desired == map[] && owned == {} { return Leave(NOTHING); }

    var root := Fields(target);
    if SERVERS_KEY !in root { root := root[SERVERS_KEY := JObject(map[])]; }
    if !root[SERVERS_KEY].JObject? { return Panic; }
    UpdateTwice(Fields(target), SERVERS_KEY, JObject(map[]));
    plan := Reconcile(target, root, owned, desired);
  }

  /** The part of a sync that works on a document known to hold a server map. */
  method Reconcile(target: TargetFile, root: map<string, Json>, owned: set<string>, desired: Servers)
    returns (plan: Plan)
    requires Editable(target) && !(target.NoFile? && desired == map[] && owned == {})
    requires SERVERS_KEY in root && root[SERVERS_KEY] == JObject(ServersOf(target))
    requires forall entry {:trigger root[SERVERS_KEY := entry]} :: root[SERVERS_KEY := entry] == Fields(target)[SERVERS_KEY := entry]
    ensures plan == Planned(FileState(target, owned), desired)
  {
    var before := root[SERVERS_KEY].fields;
    var servers, injected, removed, collisions := ApplyDesired(before, desired, owned);
    var outcome := Outcome(false, injected, removed, collisions);
    assert outcome == Counts(FileState(target, owned), desired);
    if target.NoFile? && servers == map[] {
      OverlayEmpty(Foreign(before, owned), desired);
      return if owned != {} then ForgetReceipt(outcome) else Leave(outcome);
    }
    var doc := Parsed(JObject(root[SERVERS_KEY := JObject(servers)]));
    assert doc == WithServers(target, servers);
    var next := OwnedNamesAfterSync(owned, desired.Keys, collisions);
    assert next == Injected(Foreign(before, owned), desired);
    return if target == doc && next == owned then Leave(outcome) else Rewrite(doc, next, outcome);
  }

  lemma UpdateTwice<K, V>(m: map<K, V>, key: K, first: V)
    ensures forall second {:trigger m[key := second]} :: m[key := first][key := second] == m[key := second]
  {}

  lemma OverlayEmpty(user: Servers, desired: Servers)
    requires Overlay(user, desired) == map[]
    ensures desired == map[]
  {
    assert desired.Keys <= Overlay(user, desired).Keys;
  }

  /** One project directory: the injected file and the receipt beside it. */
  class ProjectFiles {
    var target: TargetFile
    var receipt: ReceiptFile

    constructor (target: TargetFile, receipt: ReceiptFile)
      ensures this.target == target && this.receipt == receipt
    {
      this.target, this.receipt := target, receipt;
    }

    function State(): FileState
      reads this
    {
      FileState(target, ReadReceipt(receipt))
    }

    method WriteReceipt(names: set<string>)
      modifies this`receipt
      ensures ReadReceipt(receipt) == names
    {
      var body := ReceiptBody(names);
      receipt := Receipt(body);
    }

    /**
     `sync_project_mcp_file`; a sync with nothing to change writes neither file, and a target that cannot be read,
     parsed or edited is left alone together with the receipt.
     */
    method Sync(desired: Servers, fault: Fault) returns (r: Report)
      modifies this
      ensures State() == Synced(old(State()), desired, fault)
      ensures r == Reported(old(State()), desired, fault)
      ensures State() == old(State()) ==> unchanged(this)
      ensures old(target).Unreadable? ==> r == Returned(Failure(TargetUnreadable)) && unchanged(this)
      ensures old(target).Malformed? || (old(target).Parsed? && !old(target).value.JObject?) ==>
                r == Returned(Success(Outcome(false, 0, 0, {}))) && unchanged(this)
      ensures (old(target).Parsed? && old(target).value.JObject? && "mcpServers" in old(target).value.fields
               && !old(target).value.fields["mcpServers"].JObject?) ==> r == Panicked && unchanged(this)
    {
      var plan := Decide(target, ReadReceipt(receipt), desired);
      match plan {
        case Abort(error) => return Returned(Failure(error));
        case Panic => return Panicked;
        case Leave(outcome) => return Returned(Success(outcome));
        case ForgetReceipt(outcome) =>
          if fault == AtReceipt { return Returned(Failure(ReceiptWriteFailed)); }
          WriteReceipt({});
          return Returned(Success(outcome));
        case Rewrite(doc, next, outcome) =>
          if fault == AtTarget { return Returned(Failure(TargetWriteFailed)); }
          target := doc;
          if fault == AtReceipt { return Returned(Failure(ReceiptWriteFailed)); }
          WriteReceipt(next);
          return Returned(Success(outcome.(written := true)));
      }
    }
  }
}
