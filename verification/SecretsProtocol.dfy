/** The two-phase protocol of the secrets commands. A create or update process builds a request,
    asks the chain whether its digest is allowlisted, allowlists it or leaves a bundle file for a
    multisig, and posts; an execute process posts the request saved in a bundle. Processes, the
    multisig owners and the chain interleave in any order, and any step may fail. */
module SecretsProtocol {
  import opened Text
  import opened Hex
  import opened Codec

  /** The method of a request; a bundle file may name any other. */
  datatype Verb = Create | Update | Delete | List | Other(name: string)

  /** A JSON-RPC request as an abstract JSON value: saving it in a bundle may change its layout. */
  datatype Request = Request(id: string, verb: Verb, params: string)

  datatype TxType = Regular | Raw | Ledger | Changeset

  datatype Bundle = Bundle(requestId: string, verb: Verb, digestHex: string, body: Request)

  /** What execute insists on before it asks the chain: the fields are there and the method is one
      of the four. */
  predicate Complete(b: Bundle) {
    b.requestId != "" && b.digestHex != "" && !b.verb.Other?
  }

  type Digest = seq<byte>

  datatype Proc =
    | Built(req: Request, tx: TxType)    // about to ask whether the digest is allowlisted
    | NeedsTx(req: Request, tx: TxType)  // it is not; about to run the allowlist transaction
    | NeedsSave(req: Request)            // transaction data was only prepared
    | Loaded(bundle: Bundle)             // execute: about to ask about the bundle's digest
    | Posting(req: Request, sent: nat)   // free to post; sent attempts were made
    | Done

  datatype Post = Post(pid: nat, req: Request)

  datatype State = State(
    allow: set<Digest>,
    disk: map<string, Bundle>,
    procs: map<nat, Proc>,
    posted: seq<Post>)  // attempts in the order sent; one whose transport fails may not reach the gateway

  datatype TxOutcome =
    | Validated                      // mined, with the expected event
    | MinedUnvalidated(added: bool)  // mined, receipt or event not as expected
    | Prepared                       // call data or changeset produced
    | TxFailed

  datatype Step =
    | Begin(pid: nat, req: Request, tx: TxType)
    | Query(pid: nat, ok: bool)
    | RunTx(pid: nat, outcome: TxOutcome)
    | Save(pid: nat, ok: bool)
    | BeginExecute(pid: nat, path: string)
    | Send(pid: nat, retry: bool)
    | MultisigSubmits(digest: Digest)
    | Expires(digest: Digest)
    | EditsFile(path: string, bundle: Bundle)

  const ATTEMPTS: nat := 5

  /** The protocol for one digest function. */
  datatype Protocol = Protocol(digest: Request -> Digest) {

    ghost predicate Valid() {
      forall r :: |digest(r)| == 32
    }

    /** The bundle a create or update process saves. */
    function BundleOf(r: Request): Bundle {
      Bundle(r.id, r.verb, "0x" + Encode(digest(r)), r)
    }

    function Filename(r: Request): string {
      BundleFilename(digest(r))
    }

    function Set(st: State, pid: nat, p: Proc): State {
      st.(procs := st.procs[pid := p])
    }

    function OnQuery(st: State, pid: nat, p: Proc): State {
      match p
      case Built(req, tx) => Set(st, pid, if digest(req) in st.allow then Posting(req, 0) else NeedsTx(req, tx))
      case Loaded(b) =>
        var d := HexToBytes32(b.digestHex);
        Set(st, pid, if d.Some? && d.value in st.allow then Posting(b.body, 0) else Done)
      case _ => st
    }

    function OnTx(st: State, pid: nat, req: Request, tx: TxType, outcome: TxOutcome): State {
      match tx
      case Regular =>
        (match outcome
         case Validated => Set(st.(allow := st.allow + {digest(req)}), pid, Posting(req, 0))
         case MinedUnvalidated(added) =>
           Set(if added then st.(allow := st.allow + {digest(req)}) else st, pid, Done)
         case _ => Set(st, pid, Done))
      case Ledger => Set(st, pid, Done)
      case _ => Set(st, pid, if outcome == Prepared then NeedsSave(req) else Done)
    }

    /** One step; a step that is not enabled changes nothing. */
    function Apply(st: State, step: Step): State {
      match step
      case Begin(pid, req, tx) =>
        if pid !in st.procs && (req.verb == Create || req.verb == Update) then Set(st, pid, Built(req, tx)) else st
      case Query(pid, ok) =>
        if pid !in st.procs || !(st.procs[pid].Built? || st.procs[pid].Loaded?) then st
        else if !ok then Set(st, pid, Done)
        else OnQuery(st, pid, st.procs[pid])
      case RunTx(pid, outcome) =>
        if pid in st.procs && st.procs[pid].NeedsTx? then OnTx(st, pid, st.procs[pid].req, st.procs[pid].tx, outcome)
        else st
      case Save(pid, ok) =>
        if pid in st.procs && st.procs[pid].NeedsSave? then
          var req := st.procs[pid].req;
          Set(if ok then st.(disk := st.disk[Filename(req) := BundleOf(req)]) else st, pid, Done)
        else st
      case BeginExecute(pid, path) =>
        if pid !in st.procs && path in st.disk && Complete(st.disk[path]) then Set(st, pid, Loaded(st.disk[path]))
        else st
      case Send(pid, retry) =>
        if pid in st.procs && st.procs[pid].Posting? then
          var p := st.procs[pid];
          Set(st.(posted := st.posted + [Post(pid, p.req)]), pid,
              if retry && p.sent + 1 < ATTEMPTS then Posting(p.req, p.sent + 1) else Done)
        else st
      case MultisigSubmits(d) => st.(allow := st.allow + {d})
      case Expires(d) => st.(allow := st.allow - {d})
      case EditsFile(path, bundle) => st.(disk := st.disk[path := bundle])
    }

    lemma {:induction false} AfterIgnoresLater(st: State, steps: seq<Step>, later: Step, n: nat)
      requires n <= |steps|
      ensures After(st, steps + [later], n) == After(st, steps, n)
    {
      if n > 0 {
        AfterIgnoresLater(st, steps, later, n - 1);
      }
    }

    /** The state after the first n steps. */
    function After(st: State, steps: seq<Step>, n: nat): State
      requires n <= |steps|
    {
      if n == 0 then st else Apply(After(st, steps, n - 1), steps[n - 1])
    }

    // -------------------------------------------------- what authorises a post

    /** In this step the process learns that d is allowlisted: it asks and the chain holds d, or
        its own Regular transaction is validated. */
    ghost predicate Authorises(st: State, step: Step, pid: nat, d: Digest) {
      && pid in st.procs
      && match step
         case Query(p, ok) =>
           && p == pid && ok && d in st.allow
           && (st.procs[pid].Built? || st.procs[pid].Loaded?)
         case RunTx(p, outcome) =>
           && p == pid && outcome == Validated && st.procs[pid].NeedsTx?
           && st.procs[pid].tx == Regular && d == digest(st.procs[pid].req)
         case _ => false
    }

    ghost predicate AuthorisedBefore(st: State, steps: seq<Step>, n: nat, pid: nat, d: Digest)
      requires n <= |steps|
    {
      exists j | 0 <= j < n :: Authorises(After(st, steps, j), steps[j], pid, d)
    }

    /** The digest field of the bundle is the digest of the request in it. */
    ghost predicate Consistent(b: Bundle) {
      HexToBytes32(b.digestHex) == Some(digest(b.body))
    }

    /** The digest field parses, but to another digest than that of the request. */
    ghost predicate Misleading(b: Bundle) {
      HexToBytes32(b.digestHex).Some? && !Consistent(b)
    }

    /** Executing the file b fails, posts nothing, or posts what the digest field stands for. */
    ghost predicate Harmless(b: Bundle) {
      Complete(b) ==> !Misleading(b)
    }

    /** In this step the process begins by loading b from the file at path. */
    ghost predicate Loads(st: State, step: Step, pid: nat, path: string, b: Bundle) {
      step == BeginExecute(pid, path) && pid !in st.procs && path in st.disk && st.disk[path] == b && Complete(b)
    }

    ghost predicate LoadsMisleading(st: State, step: Step, pid: nat) {
      && step.BeginExecute? && step.path in st.disk
      && Loads(st, step, pid, step.path, st.disk[step.path])
      && Misleading(st.disk[step.path])
    }

    ghost predicate LoadedMisleadingBefore(st: State, steps: seq<Step>, n: nat, pid: nat)
      requires n <= |steps|
    {
      exists j | 0 <= j < n :: LoadsMisleading(After(st, steps, j), steps[j], pid)
    }

    ghost predicate Initial(st: State) {
      st.procs == map[] && st.posted == [] && st.disk == map[]
    }

    /** What is known about a process after n steps. */
    ghost predicate ProcKnown(st: State, steps: seq<Step>, n: nat, pid: nat)
      requires n <= |steps|
      requires pid in After(st, steps, n).procs
    {
      var p := After(st, steps, n).procs[pid];
      && (p.Posting? ==>
            AuthorisedBefore(st, steps, n, pid, digest(p.req)) || LoadedMisleadingBefore(st, steps, n, pid))
      && (p.Loaded? ==> !Misleading(p.bundle) || LoadedMisleadingBefore(st, steps, n, pid))
    }

    /** How a process can come to post or to hold a bundle in one step. */
    lemma OneStep(before: State, step: Step, pid: nat)
      requires pid in Apply(before, step).procs
      ensures var p := Apply(before, step).procs[pid];
              && (p.Posting? ==>
                    || (pid in before.procs && before.procs[pid].Posting? && before.procs[pid].req == p.req)
                    || Authorises(before, step, pid, digest(p.req))
                    || (pid in before.procs && before.procs[pid].Loaded? && Misleading(before.procs[pid].bundle)))
              && (p.Loaded? ==>
                    || (pid in before.procs && before.procs[pid] == p)
                    || !Misleading(p.bundle)
                    || LoadsMisleading(before, step, pid))
    {
    }

    lemma StillBefore(st: State, steps: seq<Step>, n: nat, pid: nat, d: Digest)
      requires n < |steps|
      ensures AuthorisedBefore(st, steps, n, pid, d) ==> AuthorisedBefore(st, steps, n + 1, pid, d)
      ensures LoadedMisleadingBefore(st, steps, n, pid) ==> LoadedMisleadingBefore(st, steps, n + 1, pid)
      ensures Authorises(After(st, steps, n), steps[n], pid, d) ==> AuthorisedBefore(st, steps, n + 1, pid, d)
      ensures LoadsMisleading(After(st, steps, n), steps[n], pid) ==> LoadedMisleadingBefore(st, steps, n + 1, pid)
    {
      if AuthorisedBefore(st, steps, n, pid, d) {
        var j :| 0 <= j < n && Authorises(After(st, steps, j), steps[j], pid, d);
        assert 0 <= j < n + 1;
      }
      if LoadedMisleadingBefore(st, steps, n, pid) {
        var j :| 0 <= j < n && LoadsMisleading(After(st, steps, j), steps[j], pid);
        assert 0 <= j < n + 1;
      }
    }

    lemma {:induction false} ProcStep(st: State, steps: seq<Step>, n: nat, pid: nat)
      requires n < |steps|
      requires pid in After(st, steps, n + 1).procs
      requires pid in After(st, steps, n).procs ==> ProcKnown(st, steps, n, pid)
      ensures ProcKnown(st, steps, n + 1, pid)
    {
      OneStep(After(st, steps, n), steps[n], pid);
      var p := After(st, steps, n + 1).procs[pid];
      StillBefore(st, steps, n, pid, if p.Posting? then digest(p.req) else []);
    }

    lemma {:induction false} ProcsKnown(st: State, steps: seq<Step>, n: nat)
      requires n <= |steps| && Initial(st)
      ensures forall pid | pid in After(st, steps, n).procs :: ProcKnown(st, steps, n, pid)
    {
      if n > 0 {
        forall pid | pid in After(st, steps, n).procs ensures ProcKnown(st, steps, n, pid) {
          ProcsKnown(st, steps, n - 1);
          ProcStep(st, steps, n - 1, pid);
        }
      }
    }

    /** Step n is an attempt to send this post to the gateway. */
    ghost predicate PostsAt(st: State, steps: seq<Step>, n: nat, post: Post)
      requires n < |steps|
    {
      After(st, steps, n + 1).posted == After(st, steps, n).posted + [post]
    }

    lemma OnlySendingPosts(st: State, step: Step)
      ensures Apply(st, step).posted == st.posted
              || (step.Send? && step.pid in st.procs && st.procs[step.pid].Posting?
                  && Apply(st, step).posted == st.posted + [Post(step.pid, st.procs[step.pid].req)])
    {
    }

    /** In every run, whatever the interleaving, a request posted at step n had its digest
        allowlisted at an earlier step of the same process, seen by a query or by its own validated
        transaction; the one exception is a process that loaded a misleading bundle. */
    lemma {:induction false} PostsAreAuthorised(st: State, steps: seq<Step>, n: nat, post: Post)
      requires n < |steps| && Initial(st) && PostsAt(st, steps, n, post)
      ensures AuthorisedBefore(st, steps, n, post.pid, digest(post.req))
              || LoadedMisleadingBefore(st, steps, n, post.pid)
    {
      var before := After(st, steps, n);
      ProcsKnown(st, steps, n);
      OnlySendingPosts(before, steps[n]);
      assert (before.posted + [post])[|before.posted|] == post;
      assert ProcKnown(st, steps, n, post.pid);
    }

    /** Every attempt in the log was sent by some step. */
    lemma {:induction false} LoggedPostHasStep(st: State, steps: seq<Step>, n: nat, post: Post) returns (k: nat)
      requires n <= |steps| && Initial(st) && post in After(st, steps, n).posted
      ensures k < n && PostsAt(st, steps, k, post)
    {
      OnlySendingPosts(After(st, steps, n - 1), steps[n - 1]);
      if post in After(st, steps, n - 1).posted {
        k := LoggedPostHasStep(st, steps, n - 1, post);
      } else {
        k := n - 1;
      }
    }

    // -------------------------------------------- bundles that only the tool wrote

    ghost predicate DiskHarmless(st: State) {
      forall path | path in st.disk :: Harmless(st.disk[path])
    }

    /** Whoever else writes bundle files in this run writes harmless ones. */
    ghost predicate EditsHarmless(steps: seq<Step>) {
      forall s | s in steps && s.EditsFile? :: Harmless(s.bundle)
    }

    /** A saved bundle holds the request with its id and method, and the digest of that request. */
    lemma SavedIsConsistent(r: Request)
      requires Valid()
      ensures Consistent(BundleOf(r))
      ensures BundleOf(r).body == r && BundleOf(r).requestId == r.id && BundleOf(r).verb == r.verb
    {
      assert |digest(r)| == 32;
      DigestRoundTrip(digest(r));
    }

    lemma DiskStep(st: State, step: Step)
      requires Valid() && DiskHarmless(st)
      requires step.EditsFile? ==> Harmless(step.bundle)
      ensures DiskHarmless(Apply(st, step))
    {
      if step.Save? && step.pid in st.procs && st.procs[step.pid].NeedsSave? {
        SavedIsConsistent(st.procs[step.pid].req);
      } else if !step.EditsFile? {
        assert Apply(st, step).disk == st.disk;
      }
    }

    lemma {:induction false} DiskStaysHarmless(st: State, steps: seq<Step>, n: nat)
      requires Valid() && n <= |steps| && DiskHarmless(st) && EditsHarmless(steps)
      ensures DiskHarmless(After(st, steps, n))
    {
      if n > 0 {
        DiskStaysHarmless(st, steps, n - 1);
        assert steps[n - 1] in steps;
        DiskStep(After(st, steps, n - 1), steps[n - 1]);
      }
    }

    /** Some step sends the post after its process was authorised for its digest. */
    ghost predicate SentAuthorised(st: State, steps: seq<Step>, post: Post) {
      exists n | 0 <= n < |steps| ::
        PostsAt(st, steps, n, post) && AuthorisedBefore(st, steps, n, post.pid, digest(post.req))
    }

    ghost predicate OnceAllowlisted(st: State, steps: seq<Step>, d: Digest) {
      exists j | 0 <= j <= |steps| :: d in After(st, steps, j).allow
    }

    /** When nobody writes a bundle file that is not harmless, every request sent to the gateway was sent
        by a process that had learnt before, at a moment when the chain held it, that its digest is
        allowlisted. */
    lemma {:induction false} PostsAreAllowlisted(st: State, steps: seq<Step>, post: Post)
      requires Valid() && Initial(st) && EditsHarmless(steps)
      requires post in After(st, steps, |steps|).posted
      ensures SentAuthorised(st, steps, post)
      ensures OnceAllowlisted(st, steps, digest(post.req))
    {
      var n := LoggedPostHasStep(st, steps, |steps|, post);
      PostsAreAuthorised(st, steps, n, post);
      NothingMisleadingLoaded(st, steps, n, post.pid);
      var j :| 0 <= j < n && Authorises(After(st, steps, j), steps[j], post.pid, digest(post.req));
      AuthorisedIsAllowlisted(st, steps, j, post.pid, digest(post.req));
    }

    lemma {:induction false} NothingMisleadingLoaded(st: State, steps: seq<Step>, n: nat, pid: nat)
      requires Valid() && n <= |steps| && Initial(st) && EditsHarmless(steps)
      ensures !LoadedMisleadingBefore(st, steps, n, pid)
    {
      forall j | 0 <= j < n ensures !LoadsMisleading(After(st, steps, j), steps[j], pid) {
        DiskStaysHarmless(st, steps, j);
      }
    }

    lemma AuthorisedIsAllowlisted(st: State, steps: seq<Step>, j: nat, pid: nat, d: Digest)
      requires j < |steps| && Authorises(After(st, steps, j), steps[j], pid, d)
      ensures exists k | j <= k <= j + 1 :: d in After(st, steps, k).allow
    {
      assert d in After(st, steps, if steps[j].Query? then j else j + 1).allow;
    }

    ghost predicate PostsUnlisted(st: State, steps: seq<Step>, r: Request) {
      && (exists post | post in After(st, steps, |steps|).posted :: post.req == r)
      && forall n | 0 <= n <= |steps| :: digest(r) !in After(st, steps, n).allow
    }

    lemma {:induction false} NobodyAllowlists(st: State, steps: seq<Step>, n: nat)
      requires n <= |steps|
      requires forall s | s in steps :: s.Query? || s.Send? || s.BeginExecute? || s.EditsFile?
      ensures After(st, steps, n).allow == st.allow
    {
      if n > 0 {
        NobodyAllowlists(st, steps, n - 1);
        assert steps[n - 1] in steps;
      }
    }

    /** Why bundle files must be harmless: the execute process asks about the digest field and posts
        the request without comparing the two, so every complete and misleading bundle is posted by
        some run in which the digest of its request is never allowlisted. */
    lemma {:induction false} MisleadingBundlePosts(b: Bundle) returns (st: State, steps: seq<Step>)
      requires Valid() && Complete(b) && Misleading(b)
      ensures Initial(st) && steps == EditAndExecute(b) && PostsUnlisted(st, steps, b.body)
      ensures Loads(After(st, steps, 1), steps[1], 0, "b.json", b) && PostsAt(st, steps, 3, Post(0, b.body))
    {
      st := State({HexToBytes32(b.digestHex).value}, map[], map[], []);
      steps := EditAndExecute(b);
      EditedBundlePosts(st, b);
      forall n | 0 <= n <= |steps| ensures digest(b.body) !in After(st, steps, n).allow {
        NobodyAllowlists(st, steps, n);
      }
    }

    function EditAndExecute(bundle: Bundle): seq<Step> {
      [EditsFile("b.json", bundle), BeginExecute(0, "b.json"), Query(0, true), Send(0, false)]
    }

    lemma EditedBundlePosts(st: State, b: Bundle)
      requires Initial(st) && Complete(b)
      requires HexToBytes32(b.digestHex).Some? && HexToBytes32(b.digestHex).value in st.allow
      ensures var steps := EditAndExecute(b);
              && Loads(After(st, steps, 1), steps[1], 0, "b.json", b)
              && PostsAt(st, steps, 3, Post(0, b.body))
              && Post(0, b.body) in After(st, steps, 4).posted
    {
      var steps := EditAndExecute(b);
      var edited, loaded := Apply(st, steps[0]), Apply(Apply(st, steps[0]), steps[1]);
      var asked := Apply(loaded, steps[2]);
      assert After(st, steps, 1) == Apply(After(st, steps, 0), steps[0]) == edited;
      assert After(st, steps, 2) == loaded;
      assert After(st, steps, 3) == asked && asked.procs[0] == Posting(b.body, 0);
    }

    // ------------------------------------------------ which files are safe to execute

    /** How far a process that loaded b has come after n steps. */
    ghost predicate Executes(st: State, steps: seq<Step>, n: nat, pid: nat, b: Bundle)
      requires n <= |steps|
    {
      var procs := After(st, steps, n).procs;
      && pid in procs
      && match procs[pid]
         case Loaded(bundle) => bundle == b
         case Posting(req, _) =>
           req == b.body && (AuthorisedBefore(st, steps, n, pid, digest(req)) || Misleading(b))
         case Done => true
         case _ => false
    }

    lemma {:induction false} ExecutesNext(st: State, steps: seq<Step>, n: nat, pid: nat, b: Bundle)
      requires n < |steps| && Executes(st, steps, n, pid, b)
      ensures Executes(st, steps, n + 1, pid, b)
    {
      var before := After(st, steps, n);
      ExecutesStep(before, steps[n], pid);
      OneStep(before, steps[n], pid);
      StillBefore(st, steps, n, pid, digest(b.body));
    }

    lemma ExecutesStep(st: State, step: Step, pid: nat)
      requires pid in st.procs && (st.procs[pid].Loaded? || st.procs[pid].Posting? || st.procs[pid].Done?)
      ensures pid in Apply(st, step).procs
      ensures var (p, p') := (st.procs[pid], Apply(st, step).procs[pid]);
              || p' == p || p'.Done?
              || (p'.Posting? && p.Posting? && p'.req == p.req)
              || (p'.Posting? && p.Loaded? && p'.req == p.bundle.body)
    {
    }

    /** From the step that loads b on, the process holds b, posts its request or is done. */
    lemma {:induction false} ExecutionPostsBody(st: State, steps: seq<Step>, j: nat, n: nat, pid: nat, path: string,
                                                b: Bundle)
      requires j < n <= |steps| && Loads(After(st, steps, j), steps[j], pid, path, b)
      ensures Executes(st, steps, n, pid, b)
      decreases n
    {
      if n > j + 1 {
        ExecutionPostsBody(st, steps, j, n - 1, pid, path, b);
        ExecutesNext(st, steps, n - 1, pid, b);
      }
    }

    lemma {:induction false} ExecutionIsAuthorised(st: State, steps: seq<Step>, j: nat, n: nat, post: Post,
                                                   path: string, b: Bundle)
      requires j < n < |steps| && Loads(After(st, steps, j), steps[j], post.pid, path, b)
      requires PostsAt(st, steps, n, post)
      ensures post.req == b.body
      ensures AuthorisedBefore(st, steps, n, post.pid, digest(b.body)) || Misleading(b)
    {
      var before := After(st, steps, n);
      ExecutionPostsBody(st, steps, j, n, post.pid, path, b);
      OnlySendingPosts(before, steps[n]);
      assert (before.posted + [post])[|before.posted|] == post;
    }

    /** In every run and under every interleaving, a process that loads b posts only after it learnt
        that the digest of its request is allowlisted. */
    ghost predicate ExecutesSafely(b: Bundle) {
      forall st, steps: seq<Step>, j: nat, n: nat, post: Post, path: string
        | Initial(st) && j < n < |steps| && PostsAt(st, steps, n, post)
          && Loads(After(st, steps, j), steps[j], post.pid, path, b)
        :: AuthorisedBefore(st, steps, n, post.pid, digest(post.req))
    }

    /** Execution is safe exactly for the files whose digest field does not parse, which are never
        posted, and those whose digest field is the digest of their request. */
    lemma {:induction false} ExecutesSafelyExactly(b: Bundle)
      requires Valid() && Complete(b)
      ensures ExecutesSafely(b) <==> HexToBytes32(b.digestHex).None? || Consistent(b)
    {
      if Misleading(b) {
        var st, steps := MisleadingBundlePosts(b);
        UnlistedIsUnauthorised(st, steps, 3, 0, b.body);
      } else {
        forall st, steps: seq<Step>, j: nat, n: nat, post: Post, path: string
          | Initial(st) && j < n < |steps| && PostsAt(st, steps, n, post)
            && Loads(After(st, steps, j), steps[j], post.pid, path, b)
          ensures AuthorisedBefore(st, steps, n, post.pid, digest(post.req))
        {
          ExecutionIsAuthorised(st, steps, j, n, post, path, b);
        }
      }
    }

    lemma UnlistedIsUnauthorised(st: State, steps: seq<Step>, n: nat, pid: nat, r: Request)
      requires n <= |steps| && PostsUnlisted(st, steps, r)
      ensures !AuthorisedBefore(st, steps, n, pid, digest(r))
    {
      forall j | 0 <= j < n ensures !Authorises(After(st, steps, j), steps[j], pid, digest(r)) {
        if Authorises(After(st, steps, j), steps[j], pid, digest(r)) {
          AuthorisedIsAllowlisted(st, steps, j, pid, digest(r));
        }
      }
    }

    /** Whoever else writes bundle files in this run writes only these. */
    ghost predicate EditsOnly(steps: seq<Step>, files: iset<Bundle>) {
      forall s | s in steps && s.EditsFile? :: s.bundle in files
    }

    /** No run in which others write only these files posts a request unauthorised. */
    ghost predicate SafeWithEdits(files: iset<Bundle>) {
      forall st, steps: seq<Step>, n: nat, post: Post
        | Initial(st) && n < |steps| && EditsOnly(steps, files) && PostsAt(st, steps, n, post)
        :: AuthorisedBefore(st, steps, n, post.pid, digest(post.req))
    }

    /** The protocol posts only what was allowlisted exactly when every file that others may write
        is harmless. */
    lemma {:induction false} SafeWithEditsExactly(files: iset<Bundle>)
      requires Valid()
      ensures SafeWithEdits(files) <==> forall b | b in files :: Harmless(b)
    {
      if b :| b in files && !Harmless(b) {
        var st, steps := MisleadingBundlePosts(b);
        UnlistedIsUnauthorised(st, steps, 3, 0, b.body);
        assert EditsOnly(steps, files);
      } else {
        forall st, steps: seq<Step>, n: nat, post: Post
          | Initial(st) && n < |steps| && EditsOnly(steps, files) && PostsAt(st, steps, n, post)
          ensures AuthorisedBefore(st, steps, n, post.pid, digest(post.req))
        {
          PostsAreAuthorised(st, steps, n, post);
          NothingMisleadingLoaded(st, steps, n, post.pid);
        }
      }
    }

    // ---------------------------------------------------- runs without a signer

    function PostsOf(posted: seq<Post>, pid: nat): seq<Request> {
      if posted == [] then []
      else
        var last := posted[|posted| - 1];
        PostsOf(posted[..|posted| - 1], pid) + if last.pid == pid then [last.req] else []
    }

    lemma PostsOfAppend(posted: seq<Post>, post: Post, pid: nat)
      ensures PostsOf(posted + [post], pid) == PostsOf(posted, pid) + if post.pid == pid then [post.req] else []
    {
      assert (posted + [post])[..|posted|] == posted;
    }

    /** The chain denied the request of the process, which runs no Regular transaction. */
    ghost predicate Denied(p: Proc, r: Request) {
      p.Done? || (p.NeedsSave? && p.req == r) || (p.NeedsTx? && p.req == r && p.tx != Regular)
    }

    lemma DeniedStep(st: State, step: Step, pid: nat, r: Request)
      requires pid in st.procs && Denied(st.procs[pid], r)
      ensures var next := Apply(st, step);
              && pid in next.procs && Denied(next.procs[pid], r)
              && PostsOf(next.posted, pid) == PostsOf(st.posted, pid)
    {
      if step.Send? && step.pid in st.procs && st.procs[step.pid].Posting? {
        PostsOfAppend(st.posted, Post(step.pid, st.procs[step.pid].req), pid);
      }
    }

    /** Once the chain denied a process that does not run Regular transactions, it never posts. */
    lemma {:induction false} DeniedNeverPosts(st: State, steps: seq<Step>, n: nat, pid: nat, r: Request)
      requires n <= |steps| && pid in st.procs && Denied(st.procs[pid], r)
      ensures var end := After(st, steps, n);
              && pid in end.procs && Denied(end.procs[pid], r)
              && PostsOf(end.posted, pid) == PostsOf(st.posted, pid)
    {
      if n > 0 {
        DeniedNeverPosts(st, steps, n - 1, pid, r);
        DeniedStep(After(st, steps, n - 1), steps[n - 1], pid, r);
      }
    }

    /** Once the chain granted the request, the process posts or is done: it saves nothing. */
    lemma {:induction false} GrantedNeverSaves(st: State, steps: seq<Step>, n: nat, pid: nat)
      requires n <= |steps| && pid in st.procs && (st.procs[pid].Posting? || st.procs[pid].Done?)
      ensures var end := After(st, steps, n);
              pid in end.procs && (end.procs[pid].Posting? || end.procs[pid].Done?)
    {
      if n > 0 {
        GrantedNeverSaves(st, steps, n - 1, pid);
        ExecutesStep(After(st, steps, n - 1), steps[n - 1], pid);
      }
    }

    ghost predicate Posts(st: State, steps: seq<Step>, pid: nat) {
      PostsOf(After(st, steps, |steps|).posted, pid) != PostsOf(st.posted, pid)
    }

    /** Step n leaves a file with the bundle of the process. */
    ghost predicate SavesAt(st: State, steps: seq<Step>, n: nat, pid: nat)
      requires n < |steps|
    {
      var before := After(st, steps, n);
      steps[n] == Save(pid, true) && pid in before.procs && before.procs[pid].NeedsSave?
    }

    ghost predicate Saves(st: State, steps: seq<Step>, pid: nat) {
      exists n | 0 <= n < |steps| :: SavesAt(st, steps, n, pid)
    }

    lemma GrantedMayPost(st: State, pid: nat)
      requires pid in st.procs && st.procs[pid].Posting?
      ensures Posts(st, [Send(pid, false)], pid)
    {
      var steps := [Send(pid, false)];
      assert After(st, steps, 1) == Apply(After(st, steps, 0), steps[0]);
      PostsOfAppend(st.posted, Post(pid, st.procs[pid].req), pid);
    }

    lemma DeniedMaySave(st: State, pid: nat)
      requires pid in st.procs && st.procs[pid].NeedsTx? && st.procs[pid].tx in {Raw, Changeset}
      ensures Saves(st, [RunTx(pid, Prepared), Save(pid, true)], pid)
    {
      var steps := [RunTx(pid, Prepared), Save(pid, true)];
      assert After(st, steps, 1) == Apply(After(st, steps, 0), steps[0]);
      assert SavesAt(st, steps, 1, pid);
    }

    /** What a Raw or Changeset process can do is decided by the answer to its query: some
        continuation posts exactly when the digest was allowlisted already, some continuation saves
        exactly when it was not, and whenever it saves, under whatever interleaving, the file of its
        request then holds the bundle of its request. */
    lemma {:induction false} UnsignedRunExactly(st: State, pid: nat)
      requires pid in st.procs && st.procs[pid].Built? && st.procs[pid].tx in {Raw, Changeset}
      ensures var req := st.procs[pid].req;
              var asked := Apply(st, Query(pid, true));
              && ((exists steps :: Posts(asked, steps, pid)) <==> digest(req) in st.allow)
              && ((exists steps :: Saves(asked, steps, pid)) <==> digest(req) !in st.allow)
              && forall steps: seq<Step>, n: nat | n < |steps| && SavesAt(asked, steps, n, pid) ::
                   var disk := After(asked, steps, n + 1).disk;
                   Filename(req) in disk && disk[Filename(req)] == BundleOf(req)
    {
      var req := st.procs[pid].req;
      var asked := Apply(st, Query(pid, true));
      if digest(req) in st.allow {
        GrantedMayPost(asked, pid);
        forall steps: seq<Step>, n: nat | n < |steps| ensures !SavesAt(asked, steps, n, pid) {
          GrantedNeverSaves(asked, steps, n, pid);
        }
      } else {
        DeniedMaySave(asked, pid);
        forall steps: seq<Step> ensures !Posts(asked, steps, pid) {
          DeniedNeverPosts(asked, steps, |steps|, pid, req);
        }
        forall steps: seq<Step>, n: nat | n < |steps| && SavesAt(asked, steps, n, pid)
          ensures After(asked, steps, n).procs[pid].req == req
        {
          DeniedNeverPosts(asked, steps, n, pid, req);
        }
      }
    }

    // --------------------------------------------------- what a saved file leads to

    /** The file for r holds the bundle of a request with the digest of r. */
    ghost predicate Holds(st: State, r: Request) {
      && Filename(r) in st.disk
      && var b := st.disk[Filename(r)];
      b == BundleOf(b.body) && digest(b.body) == digest(r)
    }

    /** Others leave the file for r alone from step i on. */
    ghost predicate NotEdited(steps: seq<Step>, i: nat, r: Request) {
      forall k | i <= k < |steps| && steps[k].EditsFile? :: steps[k].path != Filename(r)
    }

    /** In this step some process leaves the bundle of r. */
    ghost predicate SavesRequest(st: State, step: Step, r: Request) {
      step.Save? && step.ok && step.pid in st.procs && st.procs[step.pid] == NeedsSave(r)
    }

    lemma SavingHolds(st: State, step: Step, r: Request)
      requires SavesRequest(st, step, r)
      ensures Holds(Apply(st, step), r)
    {
    }

    lemma HoldsStep(st: State, step: Step, r: Request)
      requires Holds(st, r) && (step.EditsFile? ==> step.path != Filename(r))
      ensures Holds(Apply(st, step), r)
    {
      if step.Save? && step.pid in st.procs && st.procs[step.pid].NeedsSave? {
        var saved := st.procs[step.pid].req;
        if Filename(saved) == Filename(r) {
          BundleFilenameInjective(digest(saved), digest(r));
        }
      }
    }

    lemma {:induction false} StillHolds(st: State, steps: seq<Step>, i: nat, n: nat, r: Request)
      requires i <= n <= |steps| && Holds(After(st, steps, i), r) && NotEdited(steps, i, r)
      ensures Holds(After(st, steps, n), r)
      decreases n
    {
      if n > i {
        StillHolds(st, steps, i, n - 1, r);
        HoldsStep(After(st, steps, n - 1), steps[n - 1], r);
      }
    }

    /** No other request has the digest of r. */
    ghost predicate CollisionFree(r: Request) {
      forall r' | digest(r') == digest(r) :: r' == r
    }

    /** In every run and under every interleaving, from the step on that saves a request, whatever
        loads its file, as long as others leave that file alone, posts only requests that have its
        digest, hence that very request unless another one collides with it, and does so only after
        it learnt that the digest is allowlisted. */
    lemma {:induction false} SavedRequestIsPosted(st: State, steps: seq<Step>, i: nat, j: nat, n: nat, r: Request,
                                                  post: Post, b: Bundle)
      requires Valid() && i < j < n < |steps| && NotEdited(steps, i, r)
      requires SavesRequest(After(st, steps, i), steps[i], r)
      requires Loads(After(st, steps, j), steps[j], post.pid, Filename(r), b) && PostsAt(st, steps, n, post)
      ensures digest(post.req) == digest(r) && AuthorisedBefore(st, steps, n, post.pid, digest(r))
      ensures CollisionFree(r) ==> post.req == r
    {
      SavingHolds(After(st, steps, i), steps[i], r);
      StillHolds(st, steps, i + 1, j, r);
      SavedIsConsistent(b.body);
      ExecutionIsAuthorised(st, steps, j, n, post, Filename(r), b);
    }

    // ------------------------------------------------------ both phases together

    /** The first phase of a run without a signer. */
    function Prepare(st: State, pid: nat, req: Request, tx: TxType): State {
      Apply(Apply(Apply(Apply(st, Begin(pid, req, tx)), Query(pid, true)), RunTx(pid, Prepared)), Save(pid, true))
    }

    /** The second phase, with the file the first one left. */
    function Finish(st: State, pid: nat, path: string, retry: bool): State {
      Apply(Apply(Apply(st, BeginExecute(pid, path)), Query(pid, true)), Send(pid, retry))
    }

    lemma PrepareSaves(st: State, pid: nat, req: Request, tx: TxType)
      requires tx in {Raw, Changeset} && req.verb in {Create, Update}
      requires pid !in st.procs && digest(req) !in st.allow
      ensures var prepared := Prepare(st, pid, req, tx);
              && prepared.posted == st.posted && prepared.allow == st.allow
              && prepared.disk == st.disk[Filename(req) := BundleOf(req)]
              && prepared.procs == st.procs[pid := Done]
    {
      var asked := Apply(Apply(st, Begin(pid, req, tx)), Query(pid, true));
      assert asked == Set(st, pid, NeedsTx(req, tx));
      assert st.procs[pid := NeedsSave(req)][pid := Done] == st.procs[pid := Done];
    }

    lemma FinishPosts(st: State, pid: nat, path: string, retry: bool)
      requires pid !in st.procs && path in st.disk && Complete(st.disk[path]) && Consistent(st.disk[path])
      requires digest(st.disk[path].body) in st.allow
      ensures Finish(st, pid, path, retry).posted == st.posted + [Post(pid, st.disk[path].body)]
    {
      var asked := Apply(Apply(st, BeginExecute(pid, path)), Query(pid, true));
      assert asked.procs[pid] == Posting(st.disk[path].body, 0);
    }

    /** A request prepared in a Raw or Changeset run and allowlisted by the multisig is the very
        request that executing the saved bundle posts. */
    lemma {:induction false} TwoPhasesPostTheRequest(st: State, first: nat, second: nat, req: Request, tx: TxType,
                                                     retry: bool)
      requires Valid() && tx in {Raw, Changeset} && req.verb in {Create, Update} && req.id != ""
      requires first !in st.procs && second !in st.procs && first != second
      requires digest(req) !in st.allow
      ensures var prepared := Prepare(st, first, req, tx);
              && prepared.posted == st.posted
              && Finish(Apply(prepared, MultisigSubmits(digest(req))), second, Filename(req), retry).posted
                 == st.posted + [Post(second, req)]
    {
      PrepareSaves(st, first, req, tx);
      SavedIsConsistent(req);
      FinishPosts(Apply(Prepare(st, first, req, tx), MultisigSubmits(digest(req))), second, Filename(req), retry);
    }

    // --------------------------------------------------------- how much is sent

    /** What a process in state p has posted: as many equal requests as it counts attempts. */
    ghost predicate CountedProc(p: Proc, posts: seq<Request>) {
      match p
      case Posting(req, sent) => |posts| == sent < ATTEMPTS && forall r | r in posts :: r == req
      case Done => |posts| <= ATTEMPTS && forall r, r' | r in posts && r' in posts :: r == r'
      case _ => posts == []
    }

    ghost predicate Counted(st: State, pid: nat) {
      var posts := PostsOf(st.posted, pid);
      if pid in st.procs then CountedProc(st.procs[pid], posts) else posts == []
    }

    lemma {:induction false} CountedStep(st: State, step: Step, pid: nat)
      requires Counted(st, pid)
      ensures Counted(Apply(st, step), pid)
    {
      if step.Send? && step.pid in st.procs && st.procs[step.pid].Posting? {
        PostsOfAppend(st.posted, Post(step.pid, st.procs[step.pid].req), pid);
      } else {
        OtherStep(st, step, pid);
      }
    }

    /** A step that sends nothing leaves the counts, and a process that posted only goes to Done. */
    lemma OtherStep(st: State, step: Step, pid: nat)
      requires !(step.Send? && step.pid in st.procs && st.procs[step.pid].Posting?)
      ensures Apply(st, step).posted == st.posted
      ensures pid in st.procs ==> pid in Apply(st, step).procs
      ensures var procs := Apply(st, step).procs;
              pid in procs && procs[pid].Posting? ==>
                && pid in st.procs
                && (procs[pid] == st.procs[pid]
                    || (procs[pid].sent == 0 && !st.procs[pid].Posting? && !st.procs[pid].Done?))
      ensures pid in st.procs && (st.procs[pid].Posting? || st.procs[pid].Done?) ==>
                Apply(st, step).procs[pid] == st.procs[pid]
    {
    }

    /** No process posts more than five times, and all its posts carry one and the same request. */
    lemma {:induction false} PostsAreBounded(st: State, steps: seq<Step>, n: nat, pid: nat)
      requires n <= |steps| && Initial(st)
      ensures Counted(After(st, steps, n), pid) && |PostsOf(After(st, steps, n).posted, pid)| <= 5
    {
      if n > 0 {
        PostsAreBounded(st, steps, n - 1, pid);
        CountedStep(After(st, steps, n - 1), steps[n - 1], pid);
      }
    }
  }
}
