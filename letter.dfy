/**
 * A tile face: the character shown, whether it is a blank (wildcard) tile, and its
 * point value. The empty-cell sentinel INVISIBLE_LETTER has no value. Also holds the
 * game constants the scoring engine and the rack logic share.
 */
module Letters {
  import opened Wrappers

  /** Face shown on a blank tile that has not been assigned a letter. */
  const BLANK: char := '-'
  /** Face of the empty-cell sentinel. */
  const INVISIBLE: char := ' '
  const NUM_RACK_TILES: nat := 7
  const DEFAULT_ROWS: nat := 15
  const DEFAULT_COLUMNS: nat := 15
  const BINGO_BONUS: int := 50

  datatype Letter = Letter(letter: char, isBlank: bool, value: Option<int>)

  /** The sentinel stored in every empty board cell and rack slot. */
  const INVISIBLE_LETTER: Letter := Letter(INVISIBLE, false, None)

  /** The source's `==` on letters: all three fields agree. */
  predicate Equal(a: Letter, b: Letter) {
    a.letter == b.letter && a.isBlank == b.isBlank && a.value == b.value
  }

  /** What `hash(into:)` feeds the hasher: the three compared fields, in order. */
  function HashInput(l: Letter): (char, bool, Option<int>) {
    (l.letter, l.isBlank, l.value)
  }

  /**
   * Letter's `==` is field-wise equality, so it is the datatype's own equality, and two
   * letters feed the hasher the same input exactly when they are equal.
   */
  lemma EqualIsFieldwise(a: Letter, b: Letter)
    ensures Equal(a, b) <==> a == b
    ensures Equal(a, b) <==> HashInput(a) == HashInput(b)
  {
  }

  /** The JSON values the keyed coder reads and writes. */
  datatype Json = JString(s: string) | JBool(b: bool) | JInt(i: int) | JNull

  /** Encoding: `letter` as a one-character string, `is_blank`, and `value` (null when absent). */
  function Encode(l: Letter): (m: map<string, Json>)
    ensures m.Keys == {"letter", "is_blank", "value"}
    ensures m["letter"] == JString([l.letter]) && m["is_blank"] == JBool(l.isBlank)
    ensures l.value.None? <==> m["value"] == JNull
  {
    map["letter" := JString([l.letter]),
        "is_blank" := JBool(l.isBlank),
        "value" := if l.value.Some? then JInt(l.value.value) else JNull]
  }

  /**
   * Decoding reads the same three keys back. A missing key, a value of the wrong kind,
   * or a `letter` string that is not exactly one character is a failure.
   */
  function Decode(m: map<string, Json>): (r: Option<Letter>)
    ensures r.Some? ==> "letter" in m && m["letter"] == JString([r.value.letter])
    ensures r.Some? ==> "is_blank" in m && m["is_blank"] == JBool(r.value.isBlank)
    ensures r.Some? ==>
      "value" in m && m["value"] == (if r.value.value.Some? then JInt(r.value.value.value) else JNull)
  {
    if "letter" !in m || "is_blank" !in m || "value" !in m then None
    else match (m["letter"], m["is_blank"], m["value"])
      case (JString(s), JBool(blank), JNull) =>
        if |s| == 1 then assert s == [s[0]]; Some(Letter(s[0], blank, None)) else None
      case (JString(s), JBool(blank), JInt(v)) =>
        if |s| == 1 then assert s == [s[0]]; Some(Letter(s[0], blank, Some(v))) else None
      case _ => None
  }

  /** Decoding an encoded letter gives back every field. */
  lemma DecodeEncode(l: Letter)
    ensures Decode(Encode(l)) == Some(l)
  {
  }

  /** Whatever decodes re-encodes to the same three entries. */
  lemma EncodeDecode(m: map<string, Json>)
    requires Decode(m).Some?
    ensures Encode(Decode(m).value) == map k | k in m && k in {"letter", "is_blank", "value"} :: m[k]
  {
  }
}
