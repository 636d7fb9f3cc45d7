/** The helpers `upload_data`, the join and the export import from the application's
    utils module. Their code is not part of this model, so each is a function-valued
    field: every lemma holds whatever the helpers compute. */
module Utils {
  import opened Records

  /** The helpers, one field each. */
  datatype Helpers = Helpers(
    /** `encrypt(value)`: ciphertext of a plain value. */
    encrypt: Value -> Value,
    /** `decrypt(ciphertext, str)`; None when it raises. */
    decryptText: Value -> Option<string>,
    /** `decrypt(ciphertext, Decimal)`; None when it raises. */
    decryptDecimal: Value -> Option<real>,
    /** `get_cohort(prog_term, term, program)`; None when it raises. */
    getCohort: (Value, Value, Value) -> Option<Value>,
    /** `Decimal(str(round(get_achievement_level(gai_score, question_max), 2)))`;
        None when it raises (a zero maximum, say). */
    achievementLevel: (Value, Value) -> Option<Value>,
    /** `make_excel_safe(value)`. */
    excelSafe: Value -> Value
  )
}
