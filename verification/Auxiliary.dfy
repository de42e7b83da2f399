/** Validating one auxiliary payload as it streams past. */
module Auxiliary {
  import opened Decimal
  import opened Format
  import opened Sparse

  // What the record's own headers declare.
  datatype Declaration = Declaration(storedSize: nat, logicalSize: nat, sha256: Text, sparse: bool, retainedCap: nat)

  // The hash, and the check of the structured kinds on the retained payload.
  datatype Rules = Rules(sha256: Text -> Text, builtin: Option<Text> -> Result<()>)

  datatype Finished = Finished(layout: Option<Layout>, retained: Option<Text>)

  function Retained(d: Declaration, payload: Text): Option<Text> {
    if d.retainedCap != 0 then Some(payload) else None
  }

  // The extents of a sparse payload.
  function LayoutOf(d: Declaration, payload: Text): Option<Layout> {
    if d.sparse && Sparse.Parse(payload, d.logicalSize).Ok? then Some(Sparse.Parse(payload, d.logicalSize).value)
    else None
  }

  // A payload that can still become acceptable.
  ghost predicate Admissible(d: Declaration, p: Text) {
    && |p| <= d.storedSize
    && (d.sparse ==> Run(d.logicalSize, START, p).Ok?)
    && (d.retainedCap != 0 ==> |p| <= d.retainedCap)
  }

  // The verdict on a whole payload, stated with the one-shot parser.
  ghost predicate Accepted(d: Declaration, rules: Rules, p: Text) {
    && |p| == d.storedSize && rules.sha256(p) == d.sha256
    && (d.sparse ==> Sparse.Parse(p, d.logicalSize).Ok?)
    && (d.retainedCap != 0 ==> |p| <= d.retainedCap)
    && rules.builtin(Retained(d, p)).Ok?
  }

  class AuxiliaryStreamValidator {
    const declaration: Declaration
    const rules: Rules
    var hashed: Text
    var received: nat
    var sparse: SparseStreamValidator?
    var retained: Option<Text>

    ghost predicate Valid()
      reads this, sparse
    {
      && received == |hashed| && declaration.storedSize <= U64_MAX && Admissible(declaration, hashed)
      && retained == Retained(declaration, hashed)
      && (sparse != null <==> declaration.sparse)
      && (sparse != null ==>
            && sparse.logicalSize == declaration.logicalSize && Consistent(sparse.View())
            && Run(declaration.logicalSize, START, hashed) == Ok(sparse.View()))
    }

    constructor (declaration: Declaration, rules: Rules)
      requires declaration.storedSize <= U64_MAX
      ensures this.declaration == declaration && this.rules == rules
      ensures Valid() && hashed == [] && (sparse != null ==> fresh(sparse))
    {
      this.declaration, this.rules, hashed, received := declaration, rules, [], 0;
      retained := if declaration.retainedCap != 0 then Some([]) else None;
      sparse := null;
      new;
      if declaration.sparse {
        sparse := new SparseStreamValidator(declaration.logicalSize);
      }
      RunNothing(declaration.logicalSize, START);
    }

    method Observe(bytes: Text) returns (r: Result<()>)
      requires Valid()
      modifies this, sparse
      ensures r.Ok? <==> Admissible(declaration, old(hashed) + bytes)
      ensures r.Ok? ==> Valid() && hashed == old(hashed) + bytes && sparse == old(sparse)
    {
      hide Run, Consistent;
      if received + |bytes| > U64_MAX {
        return Err(InvalidArchive("auxiliary payload size overflow"));
      }
      received := received + |bytes|;
      if received > declaration.storedSize {
        return Invalid("AuxiliaryMetadata", "auxiliary payload exceeds declared size");
      }
      RunConcat(declaration.logicalSize, START, hashed, bytes);
      hashed := hashed + bytes;
      if sparse != null {
        r := sparse.Observe(bytes);
        if r.Err? {
          return;
        }
      }
      if retained.Some? {
        var next := |retained.value| + |bytes|;
        if next > declaration.retainedCap {
          return Err(ReaderResourceLimitExceeded("structured auxiliary payload bytes", declaration.retainedCap, next));
        }
        retained := Some(retained.value + bytes);
      }
      return Ok(());
    }

    method Finalize() returns (r: Result<Finished>)
      requires Valid()
      ensures r.Ok? <==> Accepted(declaration, rules, hashed)
      ensures r.Ok? ==> r.value == Finished(LayoutOf(declaration, hashed), Retained(declaration, hashed))
    {
      hide Run, Consistent, Finish, Parse;
      if received != declaration.storedSize {
        return Invalid("AuxiliaryMetadata", "auxiliary payload length mismatch");
      }
      if rules.sha256(hashed) != declaration.sha256 {
        return Invalid("AuxiliaryMetadata", "auxiliary payload SHA-256 mismatch");
      }
      var layout: Option<Layout> := None;
      if sparse != null {
        ValidatorAgreesWithParser(declaration.logicalSize, hashed);
        var finished := sparse.Finalize();
        if finished.Err? {
          return Err(finished.error);
        }
        layout := Some(finished.value);
      }
      var checked := rules.builtin(retained);
      if checked.Err? {
        return Err(checked.error);
      }
      return Ok(Finished(layout, retained));
    }
  }

  // What is refused early would be refused in the end.
  lemma RefusedEarly(d: Declaration, rules: Rules, p: Text, q: Text)
    requires d.storedSize <= U64_MAX && !Admissible(d, p)
    ensures !Accepted(d, rules, p + q)
  {
    hide Run, Parse, Finish;
    if |p + q| == d.storedSize {
      RunConcat(d.logicalSize, START, p, q);
      ValidatorAgreesWithParser(d.logicalSize, p + q);
    }
  }

  // Every split of the payload gets the verdict of the whole.
  method ValidateAuxiliary(d: Declaration, rules: Rules, chunks: seq<Text>) returns (r: Result<Finished>)
    requires d.storedSize <= U64_MAX
    ensures r.Ok? <==> Accepted(d, rules, Flatten(chunks))
    ensures r.Ok? ==> r.value == Finished(LayoutOf(d, Flatten(chunks)), Retained(d, Flatten(chunks)))
  {
    hide Admissible, Accepted, Retained, LayoutOf, Run, Parse;
    var validator := new AuxiliaryStreamValidator(d, rules);
    ghost var payload := Flatten(chunks);
    for i := 0 to |chunks|
      invariant validator.Valid() && fresh(validator) && (validator.sparse != null ==> fresh(validator.sparse))
      invariant validator.declaration == d && validator.rules == rules
      invariant validator.hashed + Flatten(chunks[i..]) == payload
    {
      assert chunks[i..][1..] == chunks[i + 1..];
      ghost var p := validator.hashed + chunks[i];
      assert p + Flatten(chunks[i + 1..]) == payload;
      var observed := validator.Observe(chunks[i]);
      if observed.Err? {
        RefusedEarly(d, rules, p, Flatten(chunks[i + 1..]));
        return Err(observed.error);
      }
    }
    assert validator.hashed == payload;
    r := validator.Finalize();
  }
}
