/**
 * The classification of a failed command's SQLSTATE into a DB-API exception
 * class: the first two characters of the five-character code name the
 * condition class of Appendix A of the PostgreSQL documentation, and a table
 * maps each class to an exception kind, with DatabaseError for the rest.
 */
module Errors {
  import opened Py

  /** The table as the driver writes it: class XX is keyed by the single character "X". */
  const ExcMapAsWritten: map<string, DbKind> := map[
    "0A" := NotSupported,
    "21" := Programming, "22" := Data, "23" := Integrity, "24" := Internal, "25" := Internal,
    "26" := Operational, "27" := Operational, "28" := Operational,
    "2B" := Internal, "2D" := Internal, "2F" := Internal,
    "34" := Operational, "38" := Internal, "39" := Internal, "3B" := Internal,
    "3D" := Programming, "3F" := Programming,
    "40" := Programming, "42" := Programming, "44" := Programming,
    "53" := Operational, "54" := Operational, "55" := Operational, "57" := Operational,
    "58" := Operational,
    "F0" := Internal, "P0" := Internal,
    "X" := Internal]

  /** The same table with class XX (internal error) under its two-character key. */
  const ExcMap: map<string, DbKind> := map[
    "0A" := NotSupported,
    "21" := Programming, "22" := Data, "23" := Integrity, "24" := Internal, "25" := Internal,
    "26" := Operational, "27" := Operational, "28" := Operational,
    "2B" := Internal, "2D" := Internal, "2F" := Internal,
    "34" := Operational, "38" := Internal, "39" := Internal, "3B" := Internal,
    "3D" := Programming, "3F" := Programming,
    "40" := Programming, "42" := Programming, "44" := Programming,
    "53" := Operational, "54" := Operational, "55" := Operational, "57" := Operational,
    "58" := Operational,
    "F0" := Internal, "P0" := Internal,
    "XX" := Internal]

  /**
   * `EXC_MAP.get(code[:2], DatabaseError)` when the error field is a non-empty
   * string, DatabaseError when it is missing or empty.
   */
  function Lookup(table: map<string, DbKind>, code: Option<string>): DbKind
  {
    if code.Some? && code.value != "" then
      var key := Prefix(code.value, 2);
      if key in table then table[key] else Database
    else Database
  }

  /** The classification as written; `_check_cmd_result` raises with it. */
  function ClassifyAsWritten(code: Option<string>): (k: DbKind)
    ensures k != Error && k != Interface
  {
    Lookup(ExcMapAsWritten, code)
  }

  /** The classification with class XX looked up under its two-character key. */
  function Classify(code: Option<string>): (k: DbKind)
    ensures k != Error && k != Interface
  {
    Lookup(ExcMap, code)
  }

  /** The two tables differ only in the key of class XX. */
  lemma TablesDiffer()
    ensures ExcMap == ExcMapAsWritten - {"X"} + map["XX" := Internal]
  {
    var m := ExcMapAsWritten - {"X"} + map["XX" := Internal];
    assert ExcMap.Keys == m.Keys;
  }

  /** Without a SQLSTATE, or with an empty one, the error is a plain DatabaseError. */
  lemma NoCode()
    ensures Classify(None) == Database && Classify(Some("")) == Database
    ensures ClassifyAsWritten(None) == Database && ClassifyAsWritten(Some("")) == Database
  {
  }

  /** Only the condition class, the first two characters, decides the kind. */
  lemma ClassDecides(a: string, b: string)
    requires |a| >= 2 && |b| >= 2 && a[..2] == b[..2]
    ensures Classify(Some(a)) == Classify(Some(b))
    ensures ClassifyAsWritten(Some(a)) == ClassifyAsWritten(Some(b))
  {
    assert Prefix(a, 2) == a[..2] && Prefix(b, 2) == b[..2];
  }

  /** The condition classes callers most often meet. */
  lemma CommonClasses(code: string)
    requires |code| >= 2
    ensures code[..2] == "23" ==> Classify(Some(code)) == Integrity
    ensures code[..2] == "22" ==> Classify(Some(code)) == Data
    ensures code[..2] == "42" ==> Classify(Some(code)) == Programming
    ensures code[..2] == "0A" ==> Classify(Some(code)) == NotSupported
    ensures code[..2] == "53" ==> Classify(Some(code)) == Operational
  {
    assert Prefix(code, 2) == code[..2];
  }

  /** The table as written classifies the common classes as the corrected one does. */
  lemma CommonClassesAsWritten(code: string)
    requires |code| >= 2
    ensures code[..2] == "23" ==> ClassifyAsWritten(Some(code)) == Integrity
    ensures code[..2] == "22" ==> ClassifyAsWritten(Some(code)) == Data
    ensures code[..2] == "42" ==> ClassifyAsWritten(Some(code)) == Programming
    ensures code[..2] == "0A" ==> ClassifyAsWritten(Some(code)) == NotSupported
    ensures code[..2] == "53" ==> ClassifyAsWritten(Some(code)) == Operational
  {
    assert Prefix(code, 2) == code[..2];
  }

  /** A class the table does not list is a plain DatabaseError. */
  lemma UnlistedClass(code: string)
    requires |code| >= 2 && code[..2] !in ExcMap
    ensures Classify(Some(code)) == Database
  {
    assert Prefix(code, 2) == code[..2];
  }

  /** As written, a code is a plain DatabaseError exactly when its class is missing from the driver's table. */
  lemma UnlistedClassAsWritten(code: string)
    requires |code| >= 2
    ensures ClassifyAsWritten(Some(code)) == Database <==> code[..2] !in ExcMapAsWritten
  {
    assert Prefix(code, 2) == code[..2];
  }

  /** Every code of class XX ("internal error") is an InternalError. */
  lemma InternalClass(code: string)
    requires |code| >= 2 && code[..2] == "XX"
    ensures Classify(Some(code)) == Internal
  {
    assert Prefix(code, 2) == code[..2];
  }

  /**
   * As written, the code "XX000" is looked up under "XX", which the table
   * lacks, so an internal server error surfaces as a plain DatabaseError.
   */
  lemma InternalClassMisread()
    ensures ClassifyAsWritten(Some("XX000")) == Database
    ensures Classify(Some("XX000")) == Internal
  {
    assert Prefix("XX000", 2) == "XX";
  }
}
