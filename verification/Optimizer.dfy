/**
 The optimizer of the single-party build: it encrypts the input, solves the plain model and checks
 the answer again on the ciphertexts.
 */
module Optimizers {
  import opened Wrappers
  import opened CostModel
  import opened Paillier
  import SecureProtocols
  import opened PlainSearches
  import OffBackend

  datatype OptimizeError = Refused(status: Status) | VerificationFailed

  type EncryptedRow = r: seq<Option<Ciphertext>> | |r| == 3 witness [None, None, None]

  ghost predicate RowCarries(k: Key, row: EncryptedRow, costs: PlainRow) {
    forall j :: 0 <= j < 3 ==>
      (row[j].Some? <==> costs[j].Some?) && (row[j].Some? ==> k.Holds(row[j].value, costs[j].value as int))
  }

  /** The complete matrix is encrypted at the boundary. */
  method EncryptMatrix(k: Key, costs: seq<PlainRow>) returns (rows: seq<EncryptedRow>)
    requires k.Valid()
    ensures |rows| == |costs| && forall i :: 0 <= i < |rows| ==> RowCarries(k, rows[i], costs[i])
  {
    rows := [];
    for i := 0 to |costs|
      invariant |rows| == i && forall l :: 0 <= l < i ==> RowCarries(k, rows[l], costs[l])
    {
      var row: seq<Option<Ciphertext>> := [];
      for j := 0 to 3
        invariant |row| == j
        invariant forall l :: 0 <= l < j ==> (row[l].Some? <==> costs[i][l].Some?)
        invariant forall l :: 0 <= l < j && row[l].Some? ==> k.Holds(row[l].value, costs[i][l].value as int)
      {
        if costs[i][j].Some? {
          var c := SecureProtocols.Encrypt(k, costs[i][j].value as int);
          row := row + [Some(c)];
        } else {
          row := row + [None];
        }
      }
      rows := rows + [row];
    }
  }

  /** The ciphertexts of the chosen costs. */
  method Chosen(k: Key, model: Encoded, rows: seq<EncryptedRow>, s: Assignment) returns (chosen: seq<Ciphertext>)
    requires k.Valid() && model.Plain().Complete(s) && |rows| == |model.costs|
    requires forall i :: 0 <= i < |rows| ==> RowCarries(k, rows[i], model.costs[i])
    ensures |chosen| == |s| && forall i :: 0 <= i < |s| ==> k.Holds(chosen[i], model.Plain().Cost(i, s[i]))
  {
    hide Key.Holds;
    chosen := [];
    for i := 0 to |s|
      invariant |chosen| == i && forall l :: 0 <= l < i ==> k.Holds(chosen[l], model.Plain().Cost(l, s[l]))
    {
      assert model.Plain().Has(i, s[i]) && RowCarries(k, rows[i], model.costs[i]);
      PlainAt(model, i, s[i]);
      chosen := chosen + [rows[i][s[i] - 1].value];
    }
  }

  /** What the input check admits leaves the re-check's totals and margin within 64 bits. */
  lemma ChecksFit(model: Encoded, s: Assignment)
    requires model.Valid() && model.Plain().Feasible(s)
    ensures model.Plain().Sum(TOTAL, s) <= SAFE as int
    ensures model.Plain().Sum(model.Plain().Linear(), s) <= OffBackend.LLONG_MAX
  {
    Magnitudes(model, TOTAL, s);
    Magnitudes(model, model.Plain().Linear(), s);
  }

  /**
   Optimizer::optimize: on every input it gives the plain optimizer's answer or the first error of the
   input. Its own check of the answer never fails, with the comparison protocol or without.
   */
  method Optimize(k: Key, matrix: seq<TextRow>, threshold: string, protocol: bool)
    returns (r: Result<seq<int>, OptimizeError>)
    requires k.Valid() && |matrix| < MAX_ROWS
    ensures forall inst :: Reads(matrix, threshold, inst) && Admitted(inst) ==>
      && inst.Solves(if r.Success? then Some(r.value) else None)
      && (r.Failure? ==> r.error == Refused(NoFeasibleSolution))
    ensures (forall inst :: Reads(matrix, threshold, inst) ==> !Admitted(inst)) ==>
      r == Failure(Refused(InputError(matrix, threshold)))
  {
    hide Key.Valid, Key.Holds, Encoded.Plain, Instance.Sum, Reads, Admitted, RowReads, Written, InputError;
    var encoded := Encode(matrix, threshold);
    if encoded.Failure? {
      return Failure(Refused(encoded.error));
    }
    var model := encoded.value;
    forall inst | Reads(matrix, threshold, inst)
      ensures inst == model.Plain()
    {
      ReadsOnce(matrix, threshold, inst, model.Plain());
    }
    var rows := EncryptMatrix(k, model.costs);
    var answer, cost, visited := SolveModel(model);
    if answer.Failure? {
      return Failure(Refused(answer.error));
    }
    var s := answer.value;
    ChecksFit(model, s);
    PlainShape(model);
    var chosen := Chosen(k, model, rows, s);
    assert model.Plain().Valid() by {
      AdmittedValid(model.Plain());
    }
    OffBackend.HonestVerifies(model.Plain(), s);
    var ok := OffBackend.VerifyResult(k, chosen, model.Plain(), s, protocol, model.Plain());
    if !ok {
      return Failure(VerificationFailed);
    }
    r := Success(s);
  }

  lemma AdmittedValid(inst: Instance)
    requires Admitted(inst)
    ensures inst.Valid()
  {
  }
}
