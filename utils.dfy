/**
 * Building a catalog from a register definition file (`get_defs_from_json`).
 * The JSON parse is not modelled: its outcome, a list of already-parsed
 * records or a parse error, is the input.
 */
module Utils {
  import opened Wrappers
  import opened Register

  /** One record of the definition file; `read` is absent when the file does not say. */
  datatype RawRegister = RawRegister(id: u16, name: string, kind: DataType, len: u16, read: Option<bool>)

  /** The file's top-level object. */
  datatype RegistersFormat = RegistersFormat(metaid: string, result: string, registers: seq<RawRegister>)

  /** A JSON syntax or shape error, reported by the parser. */
  datatype JsonError = JsonError(line: nat, column: nat)

  /** The default of a missing `read` field. */
  function ReturnTrue(): bool
  {
    true
  }

  /**
   * A record as a descriptor: `addr` is the record's id, `len` its declared
   * length in bits divided by 16 and rounded down, and a missing `read`
   * becomes true.
   */
  function ToRegister(f: RawRegister): (r: Register)
    ensures r.name == f.name && r.addr == f.id && r.dataType == f.kind
    ensures 16 * r.len <= f.len < 16 * (r.len + 1)
    ensures r.read <==> f.read != Some(false)
  {
    Register(f.name, f.id, f.len / 16, f.kind, match f.read case Some(b) => b case None => ReturnTrue())
  }

  /** The map the loop has built after the given records: each inserted under its name, later ones replacing earlier ones. */
  function CatalogOf(records: seq<RawRegister>): map<string, Register>
  {
    if records == [] then map[]
    else
      var f := records[|records| - 1];
      CatalogOf(records[..|records| - 1])[f.name := ToRegister(f)]
  }

  /** `get_defs_from_json`: a parse failure passes through; otherwise every record is inserted, in file order. */
  method GetDefsFromJson(parsed: Result<RegistersFormat, JsonError>) returns (r: Result<map<string, Register>, JsonError>)
    ensures parsed.Failure? ==> r == Failure(parsed.error)
    ensures parsed.Success? ==> r == Success(CatalogOf(parsed.value.registers))
  {
    if parsed.Failure? {
      return Failure(parsed.error);
    }
    var records := parsed.value.registers;
    var m: map<string, Register> := map[];
    for i := 0 to |records|
      invariant m == CatalogOf(records[..i])
    {
      assert records[..i + 1][..i] == records[..i];
      m := m[records[i].name := ToRegister(records[i])];
    }
    assert records[..|records|] == records;
    return Success(m);
  }

  /** The catalog's keys are exactly the records' names. */
  lemma {:induction false} CatalogKeys(records: seq<RawRegister>, name: string)
    ensures name in CatalogOf(records) <==> exists f :: f in records && f.name == name
  {
    if records != [] {
      var pre := records[..|records| - 1];
      var f := records[|records| - 1];
      CatalogKeys(pre, name);
      assert records == pre + [f];
      if exists g :: g in pre && g.name == name {
        var g :| g in pre && g.name == name;
        assert g in records;
      }
    }
  }

  /** Every descriptor is stored under its own name. */
  lemma {:induction false} CatalogKeyIsName(records: seq<RawRegister>, name: string)
    requires name in CatalogOf(records)
    ensures CatalogOf(records)[name].name == name
  {
    var pre := records[..|records| - 1];
    var f := records[|records| - 1];
    if f.name != name {
      CatalogKeyIsName(pre, name);
    }
  }

  /** The descriptor stored under a name comes from the last record of that name. */
  lemma {:induction false} CatalogLastWins(records: seq<RawRegister>, name: string) returns (j: nat)
    requires name in CatalogOf(records)
    ensures j < |records| && records[j].name == name
    ensures forall k :: j < k < |records| ==> records[k].name != name
    ensures CatalogOf(records)[name] == ToRegister(records[j])
  {
    var pre := records[..|records| - 1];
    var f := records[|records| - 1];
    if f.name == name {
      j := |records| - 1;
    } else {
      j := CatalogLastWins(pre, name);
    }
  }

  /** A record that declares fewer than 16 bits gives a descriptor of no words. */
  lemma ShortRecord(f: RawRegister)
    requires f.len < 16
    ensures ToRegister(f).len == 0
  {
  }
}
