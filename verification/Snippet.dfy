/** The body snippet of a non-2xx log line (pkg/non2xx_log.go), on bytes, with UTF-8
    read as in section 4 of RFC 3629. */
module Snippet {

  type Byte = b: int | 0 <= b < 256

  type Bytes = seq<Byte>

  /* ----- UTF-8 ----- */

  predicate Cont(b: Byte) { 0x80 <= b <= 0xBF }

  /** The second byte that a lead byte of a longer form allows. */
  predicate Second(lead: Byte, b: Byte) {
    if lead == 0xE0 then 0xA0 <= b <= 0xBF
    else if lead == 0xED then 0x80 <= b <= 0x9F
    else if lead == 0xF0 then 0x90 <= b <= 0xBF
    else if lead == 0xF4 then 0x80 <= b <= 0x8F
    else Cont(b)
  }

  /** Length the lead byte asks for; 1 for ASCII and for bytes that lead nothing. */
  function Wants(lead: Byte): nat {
    if 0xC2 <= lead <= 0xDF then 2
    else if 0xE0 <= lead <= 0xEF then 3
    else if 0xF0 <= lead <= 0xF4 then 4
    else 1
  }

  /** A well-formed multi-byte character at the start of `s`. */
  predicate WellFormed(s: Bytes) {
    && s != []
    && var n := Wants(s[0]);
       && n > 1 && n <= |s| && Second(s[0], s[1])
       && (n > 2 ==> Cont(s[2]))
       && (n > 3 ==> Cont(s[3]))
  }

  /** Bytes that one decoding step consumes. */
  function Width(s: Bytes): nat
    requires s != []
  {
    if WellFormed(s) then Wants(s[0]) else 1
  }

  /** The decoding steps of a text: each unit is a character or one invalid byte. */
  function Units(s: Bytes): seq<Bytes> {
    if s == [] then [] else [s[..Width(s)]] + Units(s[Width(s)..])
  }

  predicate Bad(u: Bytes) {
    |u| == 1 && u[0] >= 0x80
  }

  function Flatten(units: seq<Bytes>): Bytes {
    if units == [] then [] else units[0] + Flatten(units[1..])
  }

  /** `unicode.IsSpace` of the unit. */
  predicate Space(u: Bytes) {
    || (|u| == 1 && (0x09 <= u[0] <= 0x0D || u[0] == 0x20))
    || u == [0xC2, 0x85] || u == [0xC2, 0xA0] || u == [0xE1, 0x9A, 0x80]
    || (|u| == 3 && u[0] == 0xE2 && u[1] == 0x80 && (0x80 <= u[2] <= 0x8A || u[2] == 0xA8 || u[2] == 0xA9 || u[2] == 0xAF))
    || u == [0xE2, 0x81, 0x9F] || u == [0xE3, 0x80, 0x80]
  }

  const BLANK: Bytes := [0x20]
  const QUESTION: Bytes := [0x3F]
  const ELLIPSIS: Bytes := [0xE2, 0x80, 0xA6]
  const ABSENT: Bytes := [0x61, 0x62, 0x73, 0x65, 0x6E, 0x74]
  const BODY_LIMIT: nat := 200

  /* ----- bodySnippet ----- */

  /** `strings.Fields`, on the decoding steps: the maximal runs without space. */
  function Fields(units: seq<Bytes>, field: Bytes): seq<Bytes>
    decreases |units|
  {
    if units == [] then if field == [] then [] else [field]
    else if Space(units[0]) then (if field == [] then [] else [field]) + Fields(units[1..], [])
    else Fields(units[1..], field + units[0])
  }

  function JoinBlank(fields: seq<Bytes>): Bytes {
    if fields == [] then []
    else if |fields| == 1 then fields[0]
    else fields[0] + BLANK + JoinBlank(fields[1..])
  }

  predicate ValidText(s: Bytes) {
    forall u :: u in Units(s) ==> !Bad(u)
  }

  /** `strings.ToValidUTF8(s, "?")`: every run of invalid bytes becomes one '?'. */
  function Repair(units: seq<Bytes>, inBad: bool): seq<Bytes>
    decreases |units|
  {
    if units == [] then []
    else if Bad(units[0]) then (if inBad then [] else [QUESTION]) + Repair(units[1..], true)
    else [units[0]] + Repair(units[1..], false)
  }

  function ToValidText(s: Bytes): Bytes {
    Flatten(Repair(Units(s), false))
  }

  function BodySnippet(body: Bytes): Bytes {
    var s := JoinBlank(Fields(Units(body), []));
    if s == [] then ABSENT
    else
      var v := if ValidText(s) then s else ToValidText(s);
      var runes := Units(v);
      if |runes| <= BODY_LIMIT then v else Flatten(runes[..BODY_LIMIT]) + ELLIPSIS
  }
}
