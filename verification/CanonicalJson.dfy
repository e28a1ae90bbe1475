/**
 The canonical text that an audit entry's hash covers: `json.dumps` with sorted
 keys, compact separators and the default ASCII-only escaping (sections 4 to 7
 of RFC 8259), over null, booleans, integers, strings, lists and string-keyed
 dictionaries.

 A document is turned into text in two stages. `ToWire` sorts every dictionary
 and turns every string into UTF-16 code units; `Print` writes the result out.
 */
module CanonicalJson {
  import opened Basics

  /** A Python string: any code points, lone surrogates included. */
  type CodePoint = c: int | 0 <= c <= 0x10FFFF
  type PyStr = seq<CodePoint>

  /** One UTF-16 code unit, the granularity of `\uXXXX` escapes. */
  type CodeUnit = u: int | 0 <= u <= 0xFFFF

  /** A Python value in insertion order. */
  datatype Json =
    | Null
    | Bool(b: bool)
    | Num(n: int)
    | Str(s: PyStr)
    | Arr(items: seq<Json>)
    | Obj(members: seq<Member>)
  datatype Member = Member(key: PyStr, value: Json)

  /** What a Python value is up to dictionary order. Unlike Python's `==`, it tells True from 1. */
  datatype Value =
    | VNull
    | VBool(b: bool)
    | VNum(n: int)
    | VStr(s: PyStr)
    | VArr(items: seq<Value>)
    | VObj(members: map<PyStr, Value>)

  /** A document in the exact order and granularity in which it is written. */
  datatype Wire =
    | WNull
    | WBool(b: bool)
    | WNum(n: int)
    | WStr(s: seq<CodeUnit>)
    | WArr(items: seq<Wire>)
    | WObj(members: seq<WireMember>)
  datatype WireMember = WireMember(key: seq<CodeUnit>, value: Wire)

  /** A dictionary member whose value is encoded but which is not yet sorted. */
  datatype Keyed = Keyed(key: PyStr, value: Wire)

  // ---------- Well-formed Python values ----------

  ghost predicate DistinctKeys(ms: seq<Member>) {
    forall i, j :: 0 <= i < j < |ms| ==> ms[i].key != ms[j].key
  }

  /** A Python dictionary holds each key once. */
  ghost predicate WellFormed(j: Json) {
    match j
    case Arr(items) => forall i :: 0 <= i < |items| ==> WellFormed(items[i])
    case Obj(ms) => DistinctKeys(ms) && forall i :: 0 <= i < |ms| ==> WellFormed(ms[i].value)
    case _ => true
  }

  type PyDict = ms: seq<Member> | WellFormed(Obj(ms)) witness []

  // ---------- Strings ----------

  /** The UTF-16 code units of one code point: astral code points become a pair. */
  function UnitsOf(c: CodePoint): seq<CodeUnit> {
    if c < 0x10000 then [c]
    else [0xD800 + (c - 0x10000) / 0x400, 0xDC00 + (c - 0x10000) % 0x400]
  }

  function Units(s: PyStr): seq<CodeUnit> {
    if s == [] then [] else UnitsOf(s[0]) + Units(s[1..])
  }

  predicate IsHigh(c: int) { 0xD800 <= c < 0xDC00 }
  predicate IsLow(c: int) { 0xDC00 <= c < 0xE000 }

  function HexDigit(d: int): char
    requires 0 <= d < 16
  {
    if d < 10 then '0' + d as char else 'a' + (d - 10) as char
  }

  function EscapeUnit(u: CodeUnit): string {
    if u == 0x22 then ['\\', '"']
    else if u == 0x5C then ['\\', '\\']
    else if u == 0x0A then ['\\', 'n']
    else if u == 0x0D then ['\\', 'r']
    else if u == 0x09 then ['\\', 't']
    else if u == 0x0C then ['\\', 'f']
    else if u == 0x08 then ['\\', 'b']
    else if 0x20 <= u <= 0x7E then [u as char]
    else ['\\', 'u', HexDigit(u / 0x1000), HexDigit(u / 0x100 % 0x10), HexDigit(u / 0x10 % 0x10), HexDigit(u % 0x10)]
  }

  /** The escaped characters of a string, closing quote included. */
  function PrintUnits(us: seq<CodeUnit>): string {
    if us == [] then ['"'] else EscapeUnit(us[0]) + PrintUnits(us[1..])
  }

  // ---------- Numbers ----------

  function Digits(n: nat): string {
    if n < 10 then [HexDigit(n)] else Digits(n / 10) + [HexDigit(n % 10)]
  }

  function PrintNum(n: int): string {
    if n < 0 then ['-'] + Digits(-n) else Digits(n)
  }

  // ---------- Documents ----------

  function Print(w: Wire): string
    decreases w, 0
  {
    match w
    case WNull => "null"
    case WBool(b) => if b then "true" else "false"
    case WNum(n) => PrintNum(n)
    case WStr(s) => ['"'] + PrintUnits(s)
    case WArr(items) => if items == [] then ['[', ']'] else ['['] + Print(items[0]) + PrintItems(items[1..])
    case WObj(ms) => if ms == [] then ['{', '}'] else ['{'] + PrintMember(ms[0]) + PrintMembers(ms[1..])
  }

  /** The items after the first, each after a comma, and the closing bracket. */
  function PrintItems(items: seq<Wire>): string
    decreases items
  {
    if items == [] then [']'] else [','] + Print(items[0]) + PrintItems(items[1..])
  }

  function PrintMember(m: WireMember): string
    decreases m
  {
    ['"'] + PrintUnits(m.key) + [':'] + Print(m.value)
  }

  function PrintMembers(ms: seq<WireMember>): string
    decreases ms
  {
    if ms == [] then ['}'] else [','] + PrintMember(ms[0]) + PrintMembers(ms[1..])
  }

  // ---------- Key order ----------

  /** Python's order on strings: by code point, a proper prefix first. */
  predicate Less(a: PyStr, b: PyStr) {
    if b == [] then false
    else if a == [] then true
    else a[0] < b[0] || (a[0] == b[0] && Less(a[1..], b[1..]))
  }

  function Insert(k: Keyed, ks: seq<Keyed>): seq<Keyed> {
    if ks == [] || Less(k.key, ks[0].key) then [k] + ks else [ks[0]] + Insert(k, ks[1..])
  }

  function SortByKey(ks: seq<Keyed>): seq<Keyed> {
    if ks == [] then [] else Insert(ks[0], SortByKey(ks[1..]))
  }

  function WireMembers(ks: seq<Keyed>): (r: seq<WireMember>)
    ensures |r| == |ks|
    ensures forall i :: 0 <= i < |ks| ==> r[i] == WireMember(Units(ks[i].key), ks[i].value)
  {
    if ks == [] then [] else [WireMember(Units(ks[0].key), ks[0].value)] + WireMembers(ks[1..])
  }

  function ToWire(j: Json): Wire
    decreases j, 0
  {
    match j
    case Null => WNull
    case Bool(b) => WBool(b)
    case Num(n) => WNum(n)
    case Str(s) => WStr(Units(s))
    case Arr(items) => WArr(ItemsToWire(items))
    case Obj(ms) => WObj(WireMembers(SortByKey(MembersToWire(ms))))
  }

  function ItemsToWire(items: seq<Json>): (r: seq<Wire>)
    decreases items, 1
    ensures |r| == |items|
    ensures forall i :: 0 <= i < |items| ==> r[i] == ToWire(items[i])
  {
    if items == [] then [] else [ToWire(items[0])] + ItemsToWire(items[1..])
  }

  function MembersToWire(ms: seq<Member>): (r: seq<Keyed>)
    decreases ms, 1
    ensures |r| == |ms|
    ensures forall i :: 0 <= i < |ms| ==> r[i] == Keyed(ms[i].key, ToWire(ms[i].value))
  {
    if ms == [] then [] else
      var m := ms[0];
      [Keyed(m.key, ToWire(m.value))] + MembersToWire(ms[1..])
  }

  /** `json.dumps(j, sort_keys=True, separators=(",", ":"))`. */
  function Dumps(j: Json): string {
    Print(ToWire(j))
  }

  // ---------- Meaning ----------

  function Meaning(j: Json): Value
    decreases j, 0
  {
    match j
    case Null => VNull
    case Bool(b) => VBool(b)
    case Num(n) => VNum(n)
    case Str(s) => VStr(s)
    case Arr(items) => VArr(ItemsMeaning(items))
    case Obj(ms) => VObj(MembersMeaning(ms))
  }

  function ItemsMeaning(items: seq<Json>): (r: seq<Value>)
    decreases items, 1
    ensures |r| == |items|
    ensures forall i :: 0 <= i < |items| ==> r[i] == Meaning(items[i])
  {
    if items == [] then [] else [Meaning(items[0])] + ItemsMeaning(items[1..])
  }

  function MembersMeaning(ms: seq<Member>): map<PyStr, Value>
    decreases ms, 1
  {
    if ms == [] then map[] else
      var m := ms[0];
      MembersMeaning(ms[1..])[m.key := Meaning(m.value)]
  }
}
