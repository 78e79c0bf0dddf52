/** JSON documents as pkg/util/json holds them. */
module Json {
  import opened ByteStrings
  import opened KeyDecimal

  datatype Json =
    | JNull
    | JFalse
    | JTrue
    | JNum(d: Decimal)
    | JStr(s: bytes)
    | JArr(items: seq<Json>)
    | JObj(pairs: seq<Pair>)

  datatype Pair = Pair(k: bytes, v: Json)
}
