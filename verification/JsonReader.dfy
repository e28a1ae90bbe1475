/**
 A reader for JSON texts, written from the grammar of RFC 8259 (sections 3 to 7) for
 texts without insignificant whitespace and numbers without fraction or exponent.
 Strings are read as UTF-16 code units, the granularity of `\uXXXX` escapes, and
 decoded by RFC 2781 (section 2.2). It is the reference against which the canonical
 text is checked: it reads the text back as the document it was made from.
 */
module JsonReader {
  import opened Basics
  import opened CanonicalJson

  // ---------- Reading ----------

  datatype Read<+T> = Read(value: T, rest: string)

  function HexDigitValue(c: char): Option<nat> {
    if '0' <= c <= '9' then Some((c - '0') as nat)
    else if 'a' <= c <= 'f' then Some((c - 'a') as nat + 10)
    else if 'A' <= c <= 'F' then Some((c - 'A') as nat + 10)
    else None
  }

  /** Four hexadecimal digits. */
  function ReadQuad(s: string): Option<CodeUnit> {
    if |s| < 4 then None
    else
      var a, b, c, d := HexDigitValue(s[0]), HexDigitValue(s[1]), HexDigitValue(s[2]), HexDigitValue(s[3]);
      if a.None? || b.None? || c.None? || d.None? then None
      else
        var u := 4096 * a.value + 256 * b.value + 16 * c.value + d.value;
        if u <= 0xFFFF then Some(u) else None
  }

  /** Section 7: what stands for one code unit, an escape or a character for itself. */
  function ReadUnit(s: string): (r: Option<Read<CodeUnit>>)
    ensures r.Some? ==> |r.value.rest| < |s|
  {
    if s == [] then None
    else if s[0] == '\\' then
      if |s| < 2 then None
      else
        match s[1]
        case '\"' => Some(Read(34, s[2..]))
        case '\\' => Some(Read(92, s[2..]))
        case '/' => Some(Read(47, s[2..]))
        case 'b' => Some(Read(8, s[2..]))
        case 'f' => Some(Read(12, s[2..]))
        case 'n' => Some(Read(10, s[2..]))
        case 'r' => Some(Read(13, s[2..]))
        case 't' => Some(Read(9, s[2..]))
        case 'u' =>
          var u := ReadQuad(s[2..]);
          if u.Some? then Some(Read(u.value, s[6..])) else None
        case _ => None
    else if ' ' <= s[0] <= '~' && s[0] != '\"' then Some(Read(s[0] as int, s[1..]))
    else None
  }

  /** The rest of a string, after its opening quote. */
  function ReadUnits(s: string): (r: Option<Read<seq<CodeUnit>>>)
    ensures r.Some? ==> |r.value.rest| < |s|
  {
    if s != [] && s[0] == '\"' then Some(Read([], s[1..]))
    else
      var first := ReadUnit(s);
      if first.None? then None
      else
        var others := ReadUnits(first.value.rest);
        if others.None? then None else Some(Read([first.value.value] + others.value.value, others.value.rest))
  }

  predicate IsDigit(c: char) {
    '0' <= c <= '9'
  }

  /** The number a digit string denotes. */
  function Number(t: string): int {
    if t == [] then 0 else 10 * Number(t[..|t| - 1]) + (t[|t| - 1] as int - '0' as int)
  }

  /** How many digits a text starts with. */
  function DigitRun(s: string): (n: nat)
    ensures n <= |s|
  {
    if s == [] || !IsDigit(s[0]) then 0 else 1 + DigitRun(s[1..])
  }

  /** Section 6: no leading zeros. */
  function ReadDigits(s: string): (r: Option<Read<int>>)
    ensures r.Some? ==> |r.value.rest| < |s|
  {
    var n := DigitRun(s);
    if n == 0 || (n > 1 && s[0] == '0') then None else Some(Read(Number(s[..n]), s[n..]))
  }

  function ReadNumber(s: string): (r: Option<Read<int>>)
    ensures r.Some? ==> |r.value.rest| < |s|
  {
    if s != [] && s[0] == '-' then
      var n := ReadDigits(s[1..]);
      if n.Some? then Some(Read(-n.value.value, n.value.rest)) else None
    else ReadDigits(s)
  }

  predicate StartsWith(s: string, literal: string) {
    literal <= s
  }

  function ReadValue(s: string): (r: Option<Read<Wire>>)
    ensures r.Some? ==> |r.value.rest| < |s|
    decreases |s|, 2
  {
    if s == [] then None
    else if StartsWith(s, "null") then Some(Read(WNull, s[4..]))
    else if StartsWith(s, "true") then Some(Read(WBool(true), s[4..]))
    else if StartsWith(s, "false") then Some(Read(WBool(false), s[5..]))
    else if s[0] == '\"' then
      var us := ReadUnits(s[1..]);
      if us.Some? then Some(Read(WStr(us.value.value), us.value.rest)) else None
    else if s[0] == '[' then
      if StartsWith(s[1..], "]") then Some(Read(WArr([]), s[2..]))
      else
        var items := ReadItems(s[1..]);
        if items.Some? then Some(Read(WArr(items.value.value), items.value.rest)) else None
    else if s[0] == '{' then
      if StartsWith(s[1..], "}") then Some(Read(WObj([]), s[2..]))
      else
        var ms := ReadMembers(s[1..]);
        if ms.Some? then Some(Read(WObj(ms.value.value), ms.value.rest)) else None
    else
      var n := ReadNumber(s);
      if n.Some? then Some(Read(WNum(n.value.value), n.value.rest)) else None
  }

  /** Section 5: one or more values between commas, and the closing bracket. */
  function ReadItems(s: string): (r: Option<Read<seq<Wire>>>)
    ensures r.Some? ==> |r.value.rest| < |s|
    decreases |s|, 3
  {
    var first := ReadValue(s);
    if first.None? || first.value.rest == [] then None
    else if first.value.rest[0] == ']' then Some(Read([first.value.value], first.value.rest[1..]))
    else if first.value.rest[0] == ',' then
      var others := ReadItems(first.value.rest[1..]);
      if others.Some? then Some(Read([first.value.value] + others.value.value, others.value.rest)) else None
    else None
  }

  function ReadMember(s: string): (r: Option<Read<WireMember>>)
    ensures r.Some? ==> |r.value.rest| < |s|
    decreases |s|, 3
  {
    if s == [] || s[0] != '\"' then None
    else
      var key := ReadUnits(s[1..]);
      if key.None? || key.value.rest == [] || key.value.rest[0] != ':' then None
      else
        var value := ReadValue(key.value.rest[1..]);
        if value.Some? then Some(Read(WireMember(key.value.value, value.value.value), value.value.rest)) else None
  }

  /** Section 4: one or more members between commas, and the closing brace. */
  function ReadMembers(s: string): (r: Option<Read<seq<WireMember>>>)
    ensures r.Some? ==> |r.value.rest| < |s|
    decreases |s|, 4
  {
    var first := ReadMember(s);
    if first.None? || first.value.rest == [] then None
    else if first.value.rest[0] == '}' then Some(Read([first.value.value], first.value.rest[1..]))
    else if first.value.rest[0] == ',' then
      var others := ReadMembers(first.value.rest[1..]);
      if others.Some? then Some(Read([first.value.value] + others.value.value, others.value.rest)) else None
    else None
  }

  // ---------- Decoding ----------

  /** UTF-16: a high surrogate and the low one after it are one code point. */
  function Decode(us: seq<CodeUnit>): PyStr {
    if us == [] then []
    else if |us| > 1 && 0xD800 <= us[0] < 0xDC00 && 0xDC00 <= us[1] < 0xE000 then
      [0x10000 + (us[0] - 0xD800) * 0x400 + (us[1] - 0xDC00)] + Decode(us[2..])
    else [us[0]] + Decode(us[1..])
  }

  /** The value a document stands for; of members with one key the last counts. */
  function Denotes(w: Wire): Value
    decreases w, 0
  {
    match w
    case WNull => VNull
    case WBool(b) => VBool(b)
    case WNum(n) => VNum(n)
    case WStr(s) => VStr(Decode(s))
    case WArr(items) => VArr(ItemsDenote(items))
    case WObj(ms) => VObj(MembersDenote(ms))
  }

  function ItemsDenote(items: seq<Wire>): (r: seq<Value>)
    decreases items, 1
    ensures |r| == |items|
    ensures forall i :: 0 <= i < |items| ==> r[i] == Denotes(items[i])
  {
    if items == [] then [] else [Denotes(items[0])] + ItemsDenote(items[1..])
  }

  function MembersDenote(ms: seq<WireMember>): map<PyStr, Value>
    decreases ms, 1
  {
    if ms == [] then map[]
    else
      var m := ms[|ms| - 1];
      MembersDenote(ms[..|ms| - 1])[Decode(m.key) := Denotes(m.value)]
  }

  /** The value of a whole text, if it is one JSON value and nothing else. */
  function Loads(text: string): Option<Value> {
    var r := ReadValue(text);
    if r.Some? && r.value.rest == "" then Some(Denotes(r.value.value)) else None
  }

  // ---------- Key order ----------

  /** Alike up to place `n`; there `a` ends first, or has the smaller code point. */
  ghost predicate DifferAt(a: PyStr, b: PyStr, n: nat) {
    n <= |a| && n <= |b| && a[..n] == b[..n] && ((n == |a| && n < |b|) || (n < |a| && n < |b| && a[n] < b[n]))
  }

  ghost predicate InCodePointOrder(a: PyStr, b: PyStr) {
    exists n: nat :: DifferAt(a, b, n)
  }

  /** In every dictionary of the document the keys ascend. */
  ghost predicate KeysAscend(w: Wire) {
    match w
    case WArr(items) => forall i :: 0 <= i < |items| ==> KeysAscend(items[i])
    case WObj(ms) =>
      && (forall i :: 0 <= i < |ms| ==> KeysAscend(ms[i].value))
      && (forall i, j :: 0 <= i < j < |ms| ==> InCodePointOrder(Decode(ms[i].key), Decode(ms[j].key)))
    case _ => true
  }

  // ---------- Split pairs ----------

  /** No astral character is spelled as two surrogate code points. */
  ghost predicate NoSplit(s: PyStr) {
    forall i, j :: 0 <= i && j == i + 1 < |s| ==> !(0xD800 <= s[i] < 0xDC00 && 0xDC00 <= s[j] < 0xE000)
  }

  ghost predicate SplitFree(v: Value) {
    match v
    case VStr(s) => NoSplit(s)
    case VArr(items) => forall i :: 0 <= i < |items| ==> SplitFree(items[i])
    case VObj(m) => forall k :: k in m ==> NoSplit(k) && SplitFree(m[k])
    case _ => true
  }
}
