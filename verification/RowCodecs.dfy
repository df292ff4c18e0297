// The rows of the reservation, commit and authority tables, cell by cell.

module RowCodecs {
  import opened Wrappers
  import opened PureActionRecords

  // A cell of a row. Encoded events and digests stand for what they encode and digest.
  datatype Cell = Text(text: string) | Integer(integer: nat) | Null | Event(event: Record) | Digest(digested: Record)

  // The texts by which identities are stored.
  datatype Names = Names(
    reservation: ReservationIdentity -> string,
    authority: Authority -> string)
  {
    ghost predicate Injective() {
      && (forall a, b :: reservation(a) == reservation(b) ==> a == b)
      && (forall a :: reservation(a) != "") && (forall a :: authority(a) != "")
    }
  }

  function RequiredText(cell: Cell): Result<string> {
    if cell.Text? && cell.text != "" then Ok(cell.text) else Raised
  }

  function OptionalText(cell: Cell): Result<Option<string>> {
    if cell.Null? then Ok(None)
    else
      var text :- RequiredText(cell);
      Ok(Some(text))
  }

  function RequiredInt(cell: Cell): Result<nat> {
    if cell.Integer? then Ok(cell.integer) else Raised
  }

  function OptionalCell(text: Option<string>): Cell {
    if text.None? then Null else Text(text.value)
  }

  // ---------- reservations ----------

  // `_reservation_values`
  function ReservationRow(names: Names, r: Reservation): seq<Cell> {
    [Text(names.reservation(r.Identity())), Text(r.executionPlan), Text(r.executionBindings),
     Text(r.selectedBinding), Text(r.request), Text(r.net), Text(r.at.marking), Integer(r.at.revision),
     Text(r.occurrence), Text(r.attempt), Integer(r.attemptOrdinal),
     OptionalCell(r.admission), OptionalCell(r.authorization), OptionalCell(r.cpnPlan)]
  }

  // `_reservation_from_row`
  function ReservationFromRow(names: Names, row: seq<Cell>): Result<Reservation> {
    if |row| != 14 then Raised
    else
      var identity :- RequiredText(row[0]);
      var admission :- OptionalText(row[11]);
      var authorization :- OptionalText(row[12]);
      var cpnPlan :- OptionalText(row[13]);
      var executionPlan :- RequiredText(row[1]);
      var executionBindings :- RequiredText(row[2]);
      var selectedBinding :- RequiredText(row[3]);
      var request :- RequiredText(row[4]);
      var net :- RequiredText(row[5]);
      var marking :- RequiredText(row[6]);
      var revision :- RequiredInt(row[7]);
      var occurrence :- RequiredText(row[8]);
      var attempt :- RequiredText(row[9]);
      var ordinal :- RequiredInt(row[10]);
      var r := Reservation(executionPlan, executionBindings, selectedBinding, request, net,
                           Coordinate(marking, revision), occurrence, attempt, ordinal,
                           admission, authorization, cpnPlan);
      if r.Valid() && names.reservation(r.Identity()) == identity then Ok(r) else Raised
  }

  // Identities are never empty texts.
  predicate Named(r: Reservation) {
    && r.executionPlan != "" && r.executionBindings != "" && r.selectedBinding != "" && r.request != ""
    && r.net != "" && r.at.marking != "" && r.occurrence != "" && r.attempt != ""
    && r.admission != Some("") && r.authorization != Some("") && r.cpnPlan != Some("")
  }

  // A row decodes to a reservation exactly when it is the row that is written for it.
  lemma ReservationRowsAreExact(names: Names, row: seq<Cell>, r: Reservation)
    requires names.Injective()
    ensures ReservationFromRow(names, row) == Ok(r) <==>
            r.Valid() && Named(r) && row == ReservationRow(names, r)
  {
    if ReservationFromRow(names, row) == Ok(r) {
      var written := ReservationRow(names, r);
      forall i | 0 <= i < 14 ensures row[i] == written[i] {}
      assert row == written;
    }
  }

  // ---------- commits ----------

  // `_commit_values`: the authorities go to a table of their own, the whole record into the event.
  function CommitRow(names: Names, r: Record): seq<Cell> {
    [Text(names.reservation(r.reservation)), Text(r.commit), Text(r.net), Text(r.cpnPlan), Text(r.authorization),
     Text(r.invocation), Text(r.request), Text(r.ownerResult), Text(r.mappedResult), Text(r.firing),
     Text(r.cpnFiring), Text(r.predecessor.marking), Integer(r.predecessor.revision),
     Text(r.successor.marking), Integer(r.successor.revision), Event(r), Digest(r)]
  }

  function AuthorityRow(names: Names, ordinal: nat, a: Authority): seq<Cell> {
    [Integer(ordinal), Text(names.authority(a)), Text(a.reference), Text(a.revision), Text(a.evidence)]
  }

  function AuthorityRows(names: Names, authorities: seq<Authority>): seq<seq<Cell>> {
    seq(|authorities|, i requires 0 <= i < |authorities| => AuthorityRow(names, i, authorities[i]))
  }

  // `_authority_from_row`
  function AuthorityFromRow(names: Names, row: seq<Cell>, ordinal: nat): Result<Authority> {
    if |row| != 5 || row[0] != Integer(ordinal) then Raised
    else
      var identity :- RequiredText(row[1]);
      var reference :- RequiredText(row[2]);
      var revision :- RequiredText(row[3]);
      var evidence :- RequiredText(row[4]);
      var a := Authority(reference, revision, evidence);
      if names.authority(a) == identity then Ok(a) else Raised
  }

  function AuthoritiesFromRows(names: Names, rows: seq<seq<Cell>>): Result<seq<Authority>>
    decreases |rows|
  {
    if rows == [] then Ok([])
    else
      var n := |rows| - 1;
      var before :- AuthoritiesFromRows(names, rows[..n]);
      var last :- AuthorityFromRow(names, rows[n], n);
      Ok(before + [last])
  }

  // The columns of a commit row, with the authorities and the reservation already known.
  function RecordFromColumns(row: seq<Cell>, authorities: seq<Authority>, id: ReservationIdentity): Result<Record>
    requires |row| == 17
  {
    var commit :- RequiredText(row[1]);
    var net :- RequiredText(row[2]);
    var cpnPlan :- RequiredText(row[3]);
    var authorization :- RequiredText(row[4]);
    var invocation :- RequiredText(row[5]);
    var request :- RequiredText(row[6]);
    var ownerResult :- RequiredText(row[7]);
    var mappedResult :- RequiredText(row[8]);
    var firing :- RequiredText(row[9]);
    var cpnFiring :- RequiredText(row[10]);
    var predecessor :- RequiredText(row[11]);
    var predecessorRevision :- RequiredInt(row[12]);
    var successor :- RequiredText(row[13]);
    var successorRevision :- RequiredInt(row[14]);
    Ok(Record(commit, cpnPlan, id, net, authorization, authorities, invocation, request, ownerResult,
              mappedResult, firing, cpnFiring, Coordinate(predecessor, predecessorRevision),
              Coordinate(successor, successorRevision)))
  }

  // `_commit_from_rows`, for the reservation whose commit is asked for.
  function CommitFromRows(names: Names, row: seq<Cell>, rows: seq<seq<Cell>>, id: ReservationIdentity): Result<Record> {
    if |row| != 17 then Raised
    else
      var authorities :- AuthoritiesFromRows(names, rows);
      var r :- RecordFromColumns(row, authorities, id);
      var reservation :- RequiredText(row[0]);
      if r.Valid() && row[15] == Event(r) && row[16] == Digest(r) && reservation == names.reservation(id)
      then Ok(r) else Raised
  }

  predicate NamedRecord(r: Record) {
    && r.commit != "" && r.net != "" && r.cpnPlan != "" && r.authorization != "" && r.invocation != ""
    && r.request != "" && r.ownerResult != "" && r.mappedResult != "" && r.firing != "" && r.cpnFiring != ""
    && r.predecessor.marking != "" && r.successor.marking != ""
  }

  predicate NamedAuthorities(authorities: seq<Authority>) {
    forall i | 0 <= i < |authorities| ::
      authorities[i].reference != "" && authorities[i].revision != "" && authorities[i].evidence != ""
  }

  lemma AuthorityRowIsExact(names: Names, row: seq<Cell>, ordinal: nat, a: Authority)
    requires names.Injective()
    ensures AuthorityFromRow(names, row, ordinal) == Ok(a) <==>
            NamedAuthorities([a]) && row == AuthorityRow(names, ordinal, a)
  {
    assert NamedAuthorities([a]) <==> [a][0].reference != "" && [a][0].revision != "" && [a][0].evidence != "";
    if AuthorityFromRow(names, row, ordinal) == Ok(a) {
      var written := AuthorityRow(names, ordinal, a);
      assert row[0] == written[0] && row[1] == written[1] && row[2] == written[2];
      assert row[3] == written[3] && row[4] == written[4];
      assert row == written;
    }
  }

  lemma AuthorityRowsStep(names: Names, before: seq<Authority>, last: Authority)
    ensures AuthorityRows(names, before + [last])
            == AuthorityRows(names, before) + [AuthorityRow(names, |before|, last)]
    ensures NamedAuthorities(before + [last]) <==> NamedAuthorities(before) && NamedAuthorities([last])
  {
    var all := before + [last];
    assert forall i | 0 <= i < |before| :: all[i] == before[i];
    assert all[|before|] == last && [last][0] == last;
  }

  lemma DecodeRowsStep(names: Names, rows: seq<seq<Cell>>, before: seq<Authority>, last: Authority)
    requires rows != [] && |before| + 1 == |rows|
    ensures var n := |rows| - 1;
            AuthoritiesFromRows(names, rows) == Ok(before + [last]) <==>
            AuthoritiesFromRows(names, rows[..n]) == Ok(before) && AuthorityFromRow(names, rows[n], n) == Ok(last)
  {
    var n := |rows| - 1;
    DecodedCount(names, rows[..n]);
    if AuthoritiesFromRows(names, rows) == Ok(before + [last]) {
      var first := AuthoritiesFromRows(names, rows[..n]).value;
      var final := AuthorityFromRow(names, rows[n], n).value;
      assert (first + [final])[..n] == first && (before + [last])[..n] == before;
      assert (first + [final])[n] == final && (before + [last])[n] == last;
    }
  }

  lemma {:induction false} AuthorityRowsAreExact(names: Names, rows: seq<seq<Cell>>, authorities: seq<Authority>)
    requires names.Injective()
    ensures AuthoritiesFromRows(names, rows) == Ok(authorities) <==>
            NamedAuthorities(authorities) && rows == AuthorityRows(names, authorities)
    decreases |rows|
  {
    DecodedCount(names, rows);
    if rows != [] && |authorities| == |rows| {
      var n := |rows| - 1;
      var before, last := authorities[..n], authorities[n];
      assert authorities == before + [last] && rows == rows[..n] + [rows[n]];
      AuthorityRowsAreExact(names, rows[..n], before);
      AuthorityRowIsExact(names, rows[n], n, last);
      AuthorityRowsStep(names, before, last);
      DecodeRowsStep(names, rows, before, last);
      RowsSplit(rows, AuthorityRows(names, before), AuthorityRow(names, n, last));
    }
  }

  lemma RowsSplit(rows: seq<seq<Cell>>, before: seq<seq<Cell>>, last: seq<Cell>)
    requires rows != [] && |before| == |rows| - 1
    ensures rows == before + [last] <==> rows[..|rows| - 1] == before && rows[|rows| - 1] == last
  {
    assert rows == rows[..|rows| - 1] + [rows[|rows| - 1]];
    assert (before + [last])[..|before|] == before;
  }

  lemma {:induction false} DecodedCount(names: Names, rows: seq<seq<Cell>>)
    ensures AuthoritiesFromRows(names, rows).Ok? ==> |AuthoritiesFromRows(names, rows).value| == |rows|
    decreases |rows|
  {
    if rows != [] { DecodedCount(names, rows[..|rows| - 1]); }
  }

  lemma ColumnsAreExact(names: Names, row: seq<Cell>, authorities: seq<Authority>, id: ReservationIdentity, r: Record)
    requires |row| == 17
    ensures RecordFromColumns(row, authorities, id) == Ok(r) <==>
            && NamedRecord(r) && r.authorities == authorities && r.reservation == id
            && row[1..15] == CommitRow(names, r)[1..15]
  {
    var written := CommitRow(names, r);
    if RecordFromColumns(row, authorities, id) == Ok(r) {
      forall i | 1 <= i < 15 ensures row[i] == written[i] {}
    }
    if row[1..15] == written[1..15] {
      forall i | 1 <= i < 15 ensures row[i] == written[i] { assert row[1..15][i - 1] == written[1..15][i - 1]; }
    }
  }

  lemma RowIsItsParts(row: seq<Cell>, written: seq<Cell>)
    requires |row| == 17 == |written|
    ensures row == written <==>
            row[0] == written[0] && row[1..15] == written[1..15] && row[15] == written[15] && row[16] == written[16]
  {
    assert row == [row[0]] + row[1..15] + [row[15], row[16]];
    assert written == [written[0]] + written[1..15] + [written[15], written[16]];
  }

  // The stored rows give back a commit exactly when they are the rows written for it, columns,
  // event, digest and authorities together.
  lemma CommitRowsAreExact(names: Names, row: seq<Cell>, rows: seq<seq<Cell>>, id: ReservationIdentity, r: Record)
    requires names.Injective()
    ensures CommitFromRows(names, row, rows, id) == Ok(r) <==>
            && r.Valid() && NamedRecord(r) && NamedAuthorities(r.authorities) && r.reservation == id
            && row == CommitRow(names, r) && rows == AuthorityRows(names, r.authorities)
  {
    AuthorityRowsAreExact(names, rows, r.authorities);
    if |row| == 17 {
      RowIsItsParts(row, CommitRow(names, r));
      ColumnsAreExact(names, row, r.authorities, id, r);
    }
  }
}
