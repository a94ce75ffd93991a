/**
 * The parsed form of a JSON file, without its text syntax.  An object is a
 * map from property name to value: a parsed object holds each name once
 * and its property order carries no meaning when it is read back.
 */
module Documents {

  datatype Json =
    | JNull
    | JBool(b: bool)
    | JInt(n: int)
    | JStr(s: string)
    | JArr(items: seq<Json>)
    | JObj(props: map<string, Json>)
}
