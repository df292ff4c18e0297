// The opaque revision store: compare-and-append with global idempotency keys.

module RevisionStore {
  import opened Wrappers
  import Runs

  datatype Revision = Revision(
    stream: string,
    identity: string,
    predecessor: Option<string>,
    schema: string,
    content: string,
    payload: Bytes)
  {
    predicate Valid() { predecessor != Some(identity) }
  }

  datatype Commit = Commit(expected: Option<string>, candidate: Revision, key: string)
  {
    predicate Valid() { candidate.Valid() && candidate.predecessor == expected }
  }

  // A row and the digest column over it: a digest is represented by what it digests.
  datatype Row = Row(revision: Revision, key: string, digested: (Revision, string))

  datatype Tables = Tables(rows: map<(string, string), Row>, heads: map<string, string>)

  const EMPTY := Tables(map[], map[])

  datatype Fault = NoFault | RolledBack | CommitRaised(applied: bool)

  datatype CommitStatus = COMMITTED | IDEMPOTENT | CONFLICT | INDETERMINATE | ERROR

  datatype CommitResult = CommitResult(status: CommitStatus, revision: Option<Revision>, observed: Option<string>)
  {
    // The constructor's checks.
    predicate Valid() {
      match status
      case COMMITTED => revision.Some? && observed.None?
      case IDEMPOTENT => revision.Some? && observed.None?
      case CONFLICT => revision.None?
      case _ => revision.None? && observed.None?
    }
  }

  const FAILED := CommitResult(ERROR, None, None)

  // `_revision_from_row`: a payload above the limit of the reading instance is a fault.
  function Decoded(row: Row, maximum: nat): Result<(Revision, string)> {
    if |row.revision.payload| > maximum || !row.revision.Valid() || row.digested != (row.revision, row.key)
    then Raised else Ok((row.revision, row.key))
  }

  predicate KeyTaken(t: Tables, key: string) {
    exists at | at in t.rows :: t.rows[at].key == key
  }

  function RowWithKey(t: Tables, key: string): (at: (string, string))
    requires KeyTaken(t, key) && KeysDistinct(t)
    ensures at in t.rows && t.rows[at].key == key
  {
    UniqueRow(t, key);
    var at :| at in t.rows && t.rows[at].key == key;
    at
  }

  predicate KeysDistinct(t: Tables) {
    forall a, b | a in t.rows && b in t.rows && t.rows[a].key == t.rows[b].key :: a == b
  }

  lemma UniqueRow(t: Tables, key: string)
    requires KeysDistinct(t)
    ensures forall a, b | a in t.rows && b in t.rows && t.rows[a].key == key && t.rows[b].key == key :: a == b
  {}

  function Head(t: Tables, stream: string): Option<string> {
    if stream in t.heads then Some(t.heads[stream]) else None
  }

  function Appended(t: Tables, c: Commit): Tables {
    var at := (c.candidate.stream, c.candidate.identity);
    Tables(t.rows[at := Row(c.candidate, c.key, (c.candidate, c.key))],
           t.heads[c.candidate.stream := c.candidate.identity])
  }

  // One commit call of an instance with the given payload limit.
  function Committing(t: Tables, c: Commit, maximum: nat, fault: Fault): (Tables, CommitResult)
    requires KeysDistinct(t)
  {
    var at := (c.candidate.stream, c.candidate.identity);
    if |c.candidate.payload| > maximum || fault.RolledBack? then (t, FAILED)
    else if KeyTaken(t, c.key) then
      (match Decoded(t.rows[RowWithKey(t, c.key)], maximum)
       case Raised => (t, FAILED)
       case Ok((original, key)) =>
         if original == c.candidate && key == c.key then (t, CommitResult(IDEMPOTENT, Some(original), None))
         else (t, CommitResult(CONFLICT, None, None)))
    else if Head(t, c.candidate.stream) != c.expected then
      (t, CommitResult(CONFLICT, None, Head(t, c.candidate.stream)))
    else if at in t.rows then (t, CommitResult(CONFLICT, None, Head(t, c.candidate.stream)))
    else if fault.CommitRaised? then
      (if fault.applied then Appended(t, c) else t, CommitResult(INDETERMINATE, None, None))
    else (Appended(t, c), CommitResult(COMMITTED, Some(c.candidate), None))
  }

  datatype ReadStatus = FOUND | ABSENT | CORRUPT

  datatype ReadResult = ReadResult(status: ReadStatus, revision: Option<Revision>)

  // A selector without a revision identity asks for the latest one.
  function Reading(t: Tables, stream: string, explicit: Option<string>, maximum: nat): ReadResult {
    var identity := if explicit.Some? then explicit else Head(t, stream);
    if identity.None? || (stream, identity.value) !in t.rows then ReadResult(ABSENT, None)
    else
      match Decoded(t.rows[(stream, identity.value)], maximum)
      case Raised => ReadResult(CORRUPT, None)
      case Ok((revision, _)) => ReadResult(FOUND, Some(revision))
  }

  // ---------- the object ----------

  class AtomicRevisionStore {
    const maximum: nat
    var rows: map<(string, string), Row>
    var heads: map<string, string>

    constructor (maximum: nat, file: Tables)
      ensures this.maximum == maximum && View() == file
    {
      this.maximum := maximum;
      rows, heads := file.rows, file.heads;
    }

    function View(): Tables
      reads this
    {
      Tables(rows, heads)
    }

    method CommitRevision(c: Commit, fault: Fault) returns (result: CommitResult)
      requires c.Valid() && Invariant(View())
      modifies this`rows, this`heads
      ensures (View(), result) == Committing(old(View()), c, maximum, fault)
      ensures Invariant(View()) && result.Valid()
    {
      CommittingKeeps(View(), c, maximum, fault);
      if |c.candidate.payload| > maximum || fault.RolledBack? { return FAILED; }
      var before := View();
      if KeyTaken(View(), c.key) {
        var row := rows[RowWithKey(View(), c.key)];
        var decoded := Decoded(row, maximum);
        if decoded.Raised? { return FAILED; }
        if decoded.value == (c.candidate, c.key) { return CommitResult(IDEMPOTENT, Some(decoded.value.0), None); }
        return CommitResult(CONFLICT, None, None);
      }
      var observed := Head(View(), c.candidate.stream);
      if observed != c.expected { return CommitResult(CONFLICT, None, observed); }
      var at := (c.candidate.stream, c.candidate.identity);
      if at in rows { return CommitResult(CONFLICT, None, observed); }
      rows := rows[at := Row(c.candidate, c.key, (c.candidate, c.key))];
      heads := heads[c.candidate.stream := c.candidate.identity];
      if fault.CommitRaised? {
        if !fault.applied { rows, heads := before.rows, before.heads; }
        return CommitResult(INDETERMINATE, None, None);
      }
      return CommitResult(COMMITTED, Some(c.candidate), None);
    }

    method Read(stream: string, explicit: Option<string>) returns (result: ReadResult)
      ensures result == Reading(View(), stream, explicit, maximum)
    {
      var identity := explicit;
      if identity.None? {
        if stream !in heads { return ReadResult(ABSENT, None); }
        identity := Some(heads[stream]);
      }
      if (stream, identity.value) !in rows { return ReadResult(ABSENT, None); }
      var decoded := Decoded(rows[(stream, identity.value)], maximum);
      if decoded.Raised? { return ReadResult(CORRUPT, None); }
      return ReadResult(FOUND, Some(decoded.value.0));
    }
  }

  // ---------- linear histories ----------

  // The pointers lead from the last revision of the path back to a first one without predecessor.
  predicate Chain(rows: map<(string, string), Row>, stream: string, path: seq<string>) {
    path != [] ==>
      var n := |path| - 1;
      && (stream, path[n]) in rows
      && rows[(stream, path[n])].revision.predecessor == (if n == 0 then None else Some(path[n - 1]))
      && Chain(rows, stream, path[..n])
  }

  // One acyclic chain from a root to the head that holds every revision of the stream.
  ghost predicate IsHistory(t: Tables, stream: string, path: seq<string>) {
    && Chain(t.rows, stream, path)
    && (forall i, j | 0 <= i < j < |path| :: path[i] != path[j])
    && (forall identity {:trigger identity in path} :: identity in path <==> (stream, identity) in t.rows)
    && Head(t, stream) == (if path == [] then None else Some(path[|path| - 1]))
  }

  ghost predicate HasHistory(t: Tables, stream: string) {
    exists path :: IsHistory(t, stream, path)
  }

  predicate RowAgrees(t: Tables, at: (string, string))
    requires at in t.rows
  {
    var row := t.rows[at];
    && row.revision.Valid() && at == (row.revision.stream, row.revision.identity)
    && row.digested == (row.revision, row.key)
  }

  ghost predicate Invariant(t: Tables) {
    && KeysDistinct(t)
    && (forall at {:trigger RowAgrees(t, at)} | at in t.rows :: RowAgrees(t, at))
    && (forall stream :: HasHistory(t, stream))
  }

  lemma EmptyIsValid()
    ensures Invariant(EMPTY)
  {
    forall stream ensures HasHistory(EMPTY, stream) { assert IsHistory(EMPTY, stream, []); }
  }

  lemma {:induction false} ChainGrows(before: map<(string, string), Row>, after: map<(string, string), Row>,
                                      stream: string, path: seq<string>)
    requires Chain(before, stream, path)
    requires forall at | at in before :: at in after && after[at] == before[at]
    ensures Chain(after, stream, path)
    decreases |path|
  {
    if path != [] { ChainGrows(before, after, stream, path[..|path| - 1]); }
  }

  predicate Grants(t: Tables, c: Commit) {
    && c.Valid() && !KeyTaken(t, c.key)
    && Head(t, c.candidate.stream) == c.expected
    && (c.candidate.stream, c.candidate.identity) !in t.rows
  }

  lemma AppendedChain(t: Tables, c: Commit, path: seq<string>)
    requires Grants(t, c) && IsHistory(t, c.candidate.stream, path)
    ensures Chain(Appended(t, c).rows, c.candidate.stream, path + [c.candidate.identity])
  {
    var longer := path + [c.candidate.identity];
    ChainGrows(t.rows, Appended(t, c).rows, c.candidate.stream, path);
    assert longer[..|path|] == path;
  }

  lemma AppendedMember(t: Tables, c: Commit, path: seq<string>, identity: string)
    requires Grants(t, c) && IsHistory(t, c.candidate.stream, path)
    ensures identity in path + [c.candidate.identity] <==> (c.candidate.stream, identity) in Appended(t, c).rows
  {
    assert identity in path + [c.candidate.identity] <==> identity in path || identity == c.candidate.identity;
  }

  lemma AppendExtends(t: Tables, c: Commit, path: seq<string>)
    requires Grants(t, c) && IsHistory(t, c.candidate.stream, path)
    ensures IsHistory(Appended(t, c), c.candidate.stream, path + [c.candidate.identity])
  {
    AppendedChain(t, c, path);
    assert c.candidate.identity !in path;
    forall identity
      ensures identity in path + [c.candidate.identity] <==> (c.candidate.stream, identity) in Appended(t, c).rows
    {
      AppendedMember(t, c, path, identity);
    }
  }

  lemma AppendLeaves(t: Tables, c: Commit, stream: string, path: seq<string>)
    requires Grants(t, c) && IsHistory(t, stream, path) && stream != c.candidate.stream
    ensures IsHistory(Appended(t, c), stream, path)
  {
    ChainGrows(t.rows, Appended(t, c).rows, stream, path);
  }

  lemma AppendKeeps(t: Tables, c: Commit)
    requires Invariant(t) && Grants(t, c)
    ensures Invariant(Appended(t, c))
  {
    var after := Appended(t, c);
    forall at | at in after.rows ensures RowAgrees(after, at) {
      assert at in t.rows ==> RowAgrees(t, at);
    }
    forall stream ensures HasHistory(after, stream) {
      assert HasHistory(t, stream);
      var path :| IsHistory(t, stream, path);
      if stream == c.candidate.stream { AppendExtends(t, c, path); } else { AppendLeaves(t, c, stream, path); }
    }
  }

  lemma CommittingKeeps(t: Tables, c: Commit, maximum: nat, fault: Fault)
    requires Invariant(t) && c.Valid()
    ensures Invariant(Committing(t, c, maximum, fault).0)
    ensures Committing(t, c, maximum, fault).1.Valid()
    ensures Committing(t, c, maximum, fault).0 != t ==>
              Grants(t, c) && Committing(t, c, maximum, fault).0 == Appended(t, c)
  {
    if Grants(t, c) { AppendKeeps(t, c); }
  }

  // The revision that a key stands for.
  ghost predicate StandsFor(t: Tables, key: string, revision: Revision) {
    exists at :: at in t.rows && t.rows[at].key == key && t.rows[at].revision == revision
  }

  // Every answer of a commit on a reachable store, with the exact condition of each. The limit and
  // the key decide first; a new key appends exactly when the head is the expected one and the
  // revision is new; and only an append depends on its COMMIT.
  lemma CommitExact(t: Tables, c: Commit, maximum: nat, fault: Fault)
    requires Invariant(t) && c.Valid()
    ensures Committing(t, c, maximum, fault) ==
            if |c.candidate.payload| > maximum || fault.RolledBack? then (t, CommitResult(ERROR, None, None))
            else if StandsFor(t, c.key, c.candidate) then (t, CommitResult(IDEMPOTENT, Some(c.candidate), None))
            else if exists held :: StandsFor(t, c.key, held) && |held.payload| > maximum
            then (t, CommitResult(ERROR, None, None))
            else if exists held :: StandsFor(t, c.key, held) then (t, CommitResult(CONFLICT, None, None))
            else if !Grants(t, c) then (t, CommitResult(CONFLICT, None, Head(t, c.candidate.stream)))
            else if fault == CommitRaised(false) then (t, CommitResult(INDETERMINATE, None, None))
            else if fault == CommitRaised(true) then (Appended(t, c), CommitResult(INDETERMINATE, None, None))
            else (Appended(t, c), CommitResult(COMMITTED, Some(c.candidate), None))
  {
    UniqueRow(t, c.key);
    if KeyTaken(t, c.key) {
      var at := RowWithKey(t, c.key);
      assert RowAgrees(t, at);
      assert StandsFor(t, c.key, t.rows[at].revision);
    }
  }

  // Every stream can be begun, and continued from its head, by any revision and key that are new.
  lemma NewRevisionsAreCommitted(t: Tables, r: Revision, key: string, maximum: nat)
    requires Invariant(t) && r.predecessor == Head(t, r.stream)
    requires (r.stream, r.identity) !in t.rows && !KeyTaken(t, key) && |r.payload| <= maximum
    ensures var c := Commit(r.predecessor, r, key);
            Committing(t, c, maximum, NoFault) == (Appended(t, c), CommitResult(COMMITTED, Some(r), None))
  {
    ReadingExact(t, r.stream, None, maximum);
    CommitExact(t, Commit(r.predecessor, r, key), maximum, NoFault);
  }

  // What an append leaves: the candidate under its stream, identity and key, as the head of its
  // stream, and everything else as it was.
  lemma AppendExact(t: Tables, c: Commit)
    requires Invariant(t) && Grants(t, c)
    ensures var after, at := Appended(t, c), (c.candidate.stream, c.candidate.identity);
            && Invariant(after) && StandsFor(after, c.key, c.candidate)
            && after.rows.Keys == t.rows.Keys + {at} && after.rows[at].revision == c.candidate
            && (forall other | other in t.rows :: after.rows[other] == t.rows[other])
            && Head(after, c.candidate.stream) == Some(c.candidate.identity)
            && (forall stream | stream != c.candidate.stream :: Head(after, stream) == Head(t, stream))
  {
    AppendKeeps(t, c);
    var at := (c.candidate.stream, c.candidate.identity);
    assert Appended(t, c).rows[at].key == c.key;
  }

  // ---------- runs ----------

  // A call by an instance with its own payload limit.
  datatype Action = Action(commit: Commit, maximum: nat, fault: Fault)

  ghost function Step(t: Tables, a: Action): Tables {
    if Invariant(t) && a.commit.Valid() then Committing(t, a.commit, a.maximum, a.fault).0 else t
  }

  ghost function Run(t: Tables, actions: seq<Action>): Tables {
    Runs.Run(Step, t, actions)
  }

  // Rows are written once.
  ghost predicate Extends(t: Tables, after: Tables) {
    forall at | at in t.rows :: at in after.rows && after.rows[at] == t.rows[at]
  }

  lemma RunKeeps(t: Tables, actions: seq<Action>)
    requires Invariant(t)
    ensures Invariant(Run(t, actions)) && Extends(t, Run(t, actions))
  {
    forall s, a | Invariant(s) ensures Invariant(Step(s, a)) && Extends(s, Step(s, a)) {
      if a.commit.Valid() { CommittingKeeps(s, a.commit, a.maximum, a.fault); }
    }
    Runs.Always(Step, Runs.Any, Invariant, t, actions);
    Runs.Onward(Step, Runs.Any, Invariant, Extends, t, actions, 0);
    assert actions[..0] == [];
  }

  // Every stream of every reachable store: following predecessors from the head visits each revision
  // of the stream once and ends at a root, and the head is the only revision no other one follows.
  lemma HistoriesAreLinear(t: Tables, actions: seq<Action>, stream: string) returns (path: seq<string>)
    requires Invariant(t)
    ensures var s := Run(t, actions);
            && IsHistory(s, stream, path)
            && (forall i | 0 <= i < |path| ::
                  && (stream, path[i]) in s.rows
                  && s.rows[(stream, path[i])].revision.predecessor == if i == 0 then None else Some(path[i - 1]))
  {
    var s := Run(t, actions);
    RunKeeps(t, actions);
    assert HasHistory(s, stream);
    path :| IsHistory(s, stream, path);
    forall i | 0 <= i < |path|
      ensures (stream, path[i]) in s.rows
      ensures s.rows[(stream, path[i])].revision.predecessor == if i == 0 then None else Some(path[i - 1])
    {
      ChainLink(s.rows, stream, path, i);
    }
  }

  lemma {:induction false} ChainLink(rows: map<(string, string), Row>, stream: string, path: seq<string>, i: nat)
    requires Chain(rows, stream, path) && i < |path|
    ensures (stream, path[i]) in rows
    ensures rows[(stream, path[i])].revision.predecessor == if i == 0 then None else Some(path[i - 1])
    decreases |path|
  {
    if i < |path| - 1 { ChainLink(rows, stream, path[..|path| - 1], i); }
  }

  // A commit that took effect, known or not, is answered IDEMPOTENT ever after by every instance
  // whose limit admits its payload, and by no call with that key is anything appended again.
  lemma AppliedIsIdempotent(t: Tables, c: Commit, actions: seq<Action>, other: Commit, maximum: nat, fault: Fault)
    requires Invariant(t) && Grants(t, c) && other.Valid() && other.key == c.key
    ensures var s := Run(Appended(t, c), actions);
            && Invariant(s)
            && Committing(s, other, maximum, fault).0 == s
            && (other == c && |c.candidate.payload| <= maximum && fault != RolledBack ==>
                  Committing(s, other, maximum, fault).1 == CommitResult(IDEMPOTENT, Some(c.candidate), None))
            && Committing(s, other, maximum, fault).1.status != COMMITTED
  {
    var s, at := Run(Appended(t, c), actions), (c.candidate.stream, c.candidate.identity);
    AppendKeeps(t, c);
    RunKeeps(Appended(t, c), actions);
    assert s.rows[at].key == c.key;
    UniqueRow(s, c.key);
    assert RowWithKey(s, c.key) == at;
  }

  // Reading is exact on a reachable store: it finds the whole revision retained under the stream and
  // identity asked for, and the only rows that read as corrupt are those longer than the reader's limit.
  lemma ReadingExact(t: Tables, stream: string, explicit: Option<string>, maximum: nat)
    requires Invariant(t)
    ensures var identity := if explicit.Some? then explicit else Head(t, stream);
            && (explicit.None? && identity.Some? ==> (stream, identity.value) in t.rows)
            && Reading(t, stream, explicit, maximum) ==
               if identity.None? || (stream, identity.value) !in t.rows then ReadResult(ABSENT, None)
               else
                 var retained := t.rows[(stream, identity.value)].revision;
                 if |retained.payload| > maximum then ReadResult(CORRUPT, None) else ReadResult(FOUND, Some(retained))
    ensures var result := Reading(t, stream, explicit, maximum);
            result.status == FOUND ==>
              result.revision.Some? && result.revision.value.stream == stream
              && (explicit.Some? ==> result.revision.value.identity == explicit.value)
  {
    assert HasHistory(t, stream);
    var path :| IsHistory(t, stream, path);
    if path != [] { assert path[|path| - 1] in path; }
    var identity := if explicit.Some? then explicit else Head(t, stream);
    if identity.Some? && (stream, identity.value) in t.rows { assert RowAgrees(t, (stream, identity.value)); }
  }

  // What was committed is what is read: at once as the latest revision of its stream, and under its
  // identity ever after, by every instance whose limit admits the payload.
  lemma CommittedIsRead(t: Tables, c: Commit, actions: seq<Action>, maximum: nat)
    requires Invariant(t) && Grants(t, c) && |c.candidate.payload| <= maximum
    ensures Reading(Appended(t, c), c.candidate.stream, None, maximum) == ReadResult(FOUND, Some(c.candidate))
    ensures Reading(Run(Appended(t, c), actions), c.candidate.stream, Some(c.candidate.identity), maximum)
            == ReadResult(FOUND, Some(c.candidate))
  {
    AppendExact(t, c);
    RunKeeps(Appended(t, c), actions);
    ReadingExact(Appended(t, c), c.candidate.stream, None, maximum);
    ReadingExact(Run(Appended(t, c), actions), c.candidate.stream, Some(c.candidate.identity), maximum);
  }
}
