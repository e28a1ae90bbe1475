/**
 The canonical text says what it should: a JSON reader reads it back as the document
 it was made from, with the keys of every dictionary in ascending order.
 */
module CanonicalReading {
  import opened Basics
  import opened CanonicalJson
  import opened CanonicalMeaning
  import opened JsonReader

  lemma Regroup(p: string, q: string, x: string)
    ensures p + q + x == p + (q + x)
  {
  }

  /** What may follow a value: nothing, or a comma or closing bracket. */
  predicate Ends(x: string) {
    x == [] || x[0] == ',' || x[0] == ']' || x[0] == '}'
  }

  // ---------- Strings ----------

  lemma HexQuadSum(u: CodeUnit)
    ensures u == 0x1000 * (u / 0x1000) + 0x100 * (u / 0x100 % 0x10) + 0x10 * (u / 0x10 % 0x10) + u % 0x10
  {
    var h := u / 0x10;
    var t := h / 0x10;
    assert t == u / 0x100 && t / 0x10 == u / 0x1000;
  }

  lemma HexDigitReads(d: nat)
    requires d < 16
    ensures HexDigitValue(HexDigit(d)) == Some(d)
  {
  }

  lemma QuadReads(u: CodeUnit, x: string)
    ensures var e := [HexDigit(u / 0x1000), HexDigit(u / 0x100 % 0x10), HexDigit(u / 0x10 % 0x10), HexDigit(u % 0x10)];
      ReadQuad(e + x) == Some(u)
  {
    HexDigitReads(u / 0x1000);
    HexDigitReads(u / 0x100 % 0x10);
    HexDigitReads(u / 0x10 % 0x10);
    HexDigitReads(u % 0x10);
    HexQuadSum(u);
  }

  lemma UnitReads(u: CodeUnit, x: string)
    ensures ReadUnit(EscapeUnit(u) + x) == Some(Read(u, x))
    ensures (EscapeUnit(u) + x)[0] != '\"'
  {
    var e := EscapeUnit(u);
    var s := e + x;
    assert s[0] == e[0] && s[|e|..] == x;
    if |e| == 2 {
      assert s[1] == e[1];
    } else if |e| == 6 {
      assert s[1] == e[1] && s[2..] == e[2..] + x;
      QuadReads(u, x);
    }
  }

  lemma {:induction false} UnitsRead(us: seq<CodeUnit>, x: string)
    ensures ReadUnits(PrintUnits(us) + x) == Some(Read(us, x))
  {
    if us == [] {
      assert (PrintUnits(us) + x)[1..] == x;
    } else {
      Regroup(EscapeUnit(us[0]), PrintUnits(us[1..]), x);
      UnitReads(us[0], PrintUnits(us[1..]) + x);
      UnitsRead(us[1..], x);
      assert us == [us[0]] + us[1..];
    }
  }

  // ---------- Numbers ----------

  lemma {:induction false} DigitsDenote(n: nat)
    ensures Number(Digits(n)) == n
    ensures |Digits(n)| > 0
    ensures forall i :: 0 <= i < |Digits(n)| ==> IsDigit(Digits(n)[i])
  {
    if n >= 10 {
      DigitsDenote(n / 10);
      assert Digits(n)[..|Digits(n)| - 1] == Digits(n / 10);
    } else {
      assert Digits(n)[..0] == [];
    }
  }

  lemma PrintNumFirst(n: int)
    ensures |PrintNum(n)| > 0
    ensures if n < 0 then PrintNum(n)[0] == '-' else IsDigit(PrintNum(n)[0])
  {
    DigitsDenote(if n < 0 then -n else n);
  }

  lemma {:induction false} RunReads(d: string, x: string)
    requires Ends(x) && forall i :: 0 <= i < |d| ==> IsDigit(d[i])
    ensures DigitRun(d + x) == |d|
  {
    if d == [] {
      assert d + x == x;
    } else {
      assert (d + x)[0] == d[0] && (d + x)[1..] == d[1..] + x;
      RunReads(d[1..], x);
    }
  }

  lemma {:induction false} NoLeadingZero(n: nat)
    ensures |Digits(n)| > 0 && (Digits(n)[0] == '0' ==> n == 0)
  {
    if n >= 10 {
      NoLeadingZero(n / 10);
      assert Digits(n)[0] == Digits(n / 10)[0];
    }
  }

  lemma DigitsRead(n: nat, x: string)
    requires Ends(x)
    ensures ReadDigits(Digits(n) + x) == Some(Read(n, x))
  {
    var d := Digits(n);
    DigitsDenote(n);
    NoLeadingZero(n);
    RunReads(d, x);
    assert (d + x)[..|d|] == d && (d + x)[|d|..] == x && (d + x)[0] == d[0];
    if n == 0 {
      assert |d| == 1;
    }
  }

  lemma NegativeReads(n: int, x: string)
    requires n < 0 && Ends(x)
    ensures ReadNumber(['-'] + (Digits(-n) + x)) == Some(Read(n, x))
  {
    assert (['-'] + (Digits(-n) + x))[1..] == Digits(-n) + x;
    DigitsRead(-n, x);
  }

  lemma NumberReads(n: int, x: string)
    requires Ends(x)
    ensures ReadNumber(PrintNum(n) + x) == Some(Read(n, x))
  {
    if n < 0 {
      Regroup(['-'], Digits(-n), x);
      NegativeReads(n, x);
    } else {
      PrintNumFirst(n);
      assert (Digits(n) + x)[0] == Digits(n)[0];
      DigitsRead(n, x);
    }
  }

  // ---------- The spelling of strings and numbers ----------

  /** Hexadecimal digits are in lower case. */
  predicate LowerCase(e: string) {
    forall i :: 0 <= i < |e| ==> !('A' <= e[i] <= 'F')
  }

  lemma LowerDigit(c: char)
    requires HexDigitValue(c).Some? && !('A' <= c <= 'F')
    ensures HexDigitValue(c).value < 16 && HexDigit(HexDigitValue(c).value) == c
  {
  }

  lemma QuadDigits(a: nat, b: nat, c: nat, d: nat)
    requires a < 16 && b < 16 && c < 16 && d < 16
    ensures var u := 4096 * a + 256 * b + 16 * c + d;
      u / 0x1000 == a && u / 0x100 % 0x10 == b && u / 0x10 % 0x10 == c && u % 0x10 == d
  {
    var u := 4096 * a + 256 * b + 16 * c + d;
    assert u / 0x100 == 16 * a + b && u / 0x10 == 256 * a + 16 * b + c;
  }

  lemma LowerQuad(q: string, u: CodeUnit)
    requires |q| == 4 && LowerCase(q) && ReadQuad(q) == Some(u)
    ensures q == [HexDigit(u / 0x1000), HexDigit(u / 0x100 % 0x10), HexDigit(u / 0x10 % 0x10), HexDigit(u % 0x10)]
  {
    LowerDigit(q[0]);
    LowerDigit(q[1]);
    LowerDigit(q[2]);
    LowerDigit(q[3]);
    QuadDigits(HexDigitValue(q[0]).value, HexDigitValue(q[1]).value, HexDigitValue(q[2]).value, HexDigitValue(q[3]).value);
  }

  /** Of all ways to write a code unit with lower-case hexadecimal digits, the text uses the one shortest. */
  lemma EscapeIsShortest(u: CodeUnit, e: string)
    requires ReadUnit(e) == Some(Read(u, "")) && (|e| == 6 ==> LowerCase(e))
    ensures |EscapeUnit(u)| < |e| || EscapeUnit(u) == e
  {
    if |e| == 6 {
      assert e[6..] == "" && e[0] == '\\' && e[1] == 'u';
      LowerQuad(e[2..], u);
      assert e == [e[0], e[1]] + e[2..];
    } else if |e| == 2 {
      assert e == [e[0], e[1]];
    } else {
      assert |e| == 1 && e == [e[0]];
    }
  }

  lemma {:induction false} AllDigits(s: string)
    requires DigitRun(s) == |s|
    ensures forall i :: 0 <= i < |s| ==> IsDigit(s[i])
    ensures Number(s) >= 0
  {
    if s != [] {
      AllDigits(s[1..]);
      assert forall i :: 0 < i < |s| ==> s[i] == s[1..][i - 1];
      NumberIsNat(s);
    }
  }

  lemma {:induction false} NumberIsNat(s: string)
    requires forall i :: 0 <= i < |s| ==> IsDigit(s[i])
    ensures Number(s) >= 0
    ensures s != [] && s[0] != '0' ==> Number(s) > 0
  {
    if s != [] {
      NumberIsNat(s[..|s| - 1]);
    }
  }

  lemma {:induction false} DigitsAreUnique(s: string)
    requires s != [] && forall i :: 0 <= i < |s| ==> IsDigit(s[i])
    requires |s| > 1 ==> s[0] != '0'
    ensures Number(s) >= 0 && Digits(Number(s)) == s
  {
    NumberIsNat(s);
    var front, last := s[..|s| - 1], s[|s| - 1];
    assert s == front + [last];
    if front != [] {
      DigitsAreUnique(front);
      NumberIsNat(front);
      assert Number(s) / 10 == Number(front) && Number(s) % 10 == last as int - '0' as int;
    }
  }

  /** There is no other way to write an integer, except zero as minus zero. */
  lemma NumberTextIsUnique(s: string, n: int)
    requires ReadNumber(s) == Some(Read(n, "")) && s != "-0"
    ensures s == PrintNum(n)
  {
    var d := if s[0] == '-' then s[1..] else s;
    assert ReadDigits(d).Some? && d[DigitRun(d)..] == "";
    AllDigits(d);
    assert d[..|d|] == d;
    DigitsAreUnique(d);
    if s[0] == '-' {
      assert s == ['-'] + d;
      assert Number(d) == 0 ==> d == ['0'];
    }
  }

  // ---------- Documents ----------

  /** No value starts like what may follow one. */
  lemma FirstChar(w: Wire)
    ensures |Print(w)| > 0 && !Ends(Print(w))
  {
    if w.WNum? {
      PrintNumFirst(w.n);
    }
  }

  /** The reader reads back any printed document, whatever may follow it. */
  lemma {:induction false} PrintedReads(w: Wire, x: string)
    requires Ends(x)
    ensures ReadValue(Print(w) + x) == Some(Read(w, x))
    decreases w, 0
  {
    match w
    case WNull => LiteralReads("null", x);
    case WBool(b) => LiteralReads(if b then "true" else "false", x);
    case WNum(n) => BareNumberReads(n, x);
    case WStr(us) =>
      assert Print(w) + x == ['\"'] + (PrintUnits(us) + x);
      UnitsRead(us, x);
      QuotedReads(PrintUnits(us) + x);
    case WArr(items) => ListReads(items, x);
    case WObj(ms) => DictReads(ms, x);
  }

  lemma LiteralReads(literal: string, x: string)
    requires literal == "null" || literal == "true" || literal == "false"
    ensures ReadValue(literal + x) ==
      Some(Read(if literal == "null" then WNull else WBool(literal == "true"), x))
  {
    var s := literal + x;
    assert s[..|literal|] == literal && s[|literal|..] == x;
    assert s[0] == literal[0];
  }

  /** Which branch of the reader a first character selects. */
  lemma FirstSelects(s: string)
    requires s != [] && s[0] != 'n' && s[0] != 't' && s[0] != 'f'
    ensures !StartsWith(s, "null") && !StartsWith(s, "true") && !StartsWith(s, "false")
  {
    assert "null"[0] == 'n' && "true"[0] == 't' && "false"[0] == 'f';
  }

  lemma QuotedReads(s: string)
    requires ReadUnits(s).Some?
    ensures ReadValue(['\"'] + s) == Some(Read(WStr(ReadUnits(s).value.value), ReadUnits(s).value.rest))
  {
    FirstSelects(['\"'] + s);
    assert (['\"'] + s)[1..] == s;
  }

  lemma BareNumberReads(n: int, x: string)
    requires Ends(x)
    ensures ReadValue(PrintNum(n) + x) == Some(Read(WNum(n), x))
  {
    PrintNumFirst(n);
    assert (PrintNum(n) + x)[0] == PrintNum(n)[0];
    FirstSelects(PrintNum(n) + x);
    NumberReads(n, x);
  }

  lemma OpensList(s: string)
    requires s != [] && s[0] != ']' && ReadItems(s).Some?
    ensures ReadValue(['['] + s) == Some(Read(WArr(ReadItems(s).value.value), ReadItems(s).value.rest))
  {
    FirstSelects(['['] + s);
    assert (['['] + s)[1..] == s;
    assert "]"[0] == ']';
  }

  lemma OpensDict(s: string)
    requires s != [] && s[0] != '}' && ReadMembers(s).Some?
    ensures ReadValue(['{'] + s) == Some(Read(WObj(ReadMembers(s).value.value), ReadMembers(s).value.rest))
  {
    var all := ['{'] + s;
    FirstSelects(all);
    assert all[0] == '{' && all[1..] == s;
    assert "}"[0] == '}';
    assert !StartsWith(s, "}");
  }

  lemma {:induction false} ListReads(items: seq<Wire>, x: string)
    requires Ends(x)
    ensures ReadValue(Print(WArr(items)) + x) == Some(Read(WArr(items), x))
    decreases items, 3
  {
    if items == [] {
      var s := ['[', ']'] + x;
      FirstSelects(s);
      assert s[1..] == [']'] + x && s[2..] == x;
      assert s[1..][..1] == "]";
    } else {
      var tail := Print(items[0]) + PrintItems(items[1..]) + x;
      assert Print(WArr(items)) + x == ['['] + tail;
      ItemsRead(items, x);
      FirstChar(items[0]);
      assert tail[0] == Print(items[0])[0];
      OpensList(tail);
    }
  }

  lemma NextItem(s: string, w: Wire, more: string, items: seq<Wire>, x: string)
    requires ReadValue(s) == Some(Read(w, [','] + more)) && ReadItems(more) == Some(Read(items, x))
    ensures ReadItems(s) == Some(Read([w] + items, x))
  {
    assert ([','] + more)[1..] == more;
  }

  lemma AfterComma(head: string, tail: string, x: string)
    ensures [','] + head + tail + x == [','] + (head + tail + x)
  {
    Regroup(head, tail, x);
  }

  /** One printed item in front of the rest, as the reader takes them apart. */
  lemma HeadItemReads(first: Wire, others: seq<Wire>, x: string)
    requires ReadValue(Print(first) + (PrintItems(others) + x)) == Some(Read(first, PrintItems(others) + x))
    requires others != [] ==> ReadItems(Print(others[0]) + PrintItems(others[1..]) + x) == Some(Read(others, x))
    ensures ReadItems(Print(first) + (PrintItems(others) + x)) == Some(Read([first] + others, x))
  {
    var s := Print(first) + (PrintItems(others) + x);
    if others == [] {
      assert PrintItems(others) == [']'];
      assert [first] + others == [first];
    } else {
      var more := Print(others[0]) + PrintItems(others[1..]) + x;
      AfterComma(Print(others[0]), PrintItems(others[1..]), x);
      NextItem(s, first, more, others, x);
    }
  }

  lemma {:induction false} ItemsRead(items: seq<Wire>, x: string)
    requires items != [] && Ends(x)
    ensures ReadItems(Print(items[0]) + PrintItems(items[1..]) + x) == Some(Read(items, x))
    decreases items, 2
  {
    var others := items[1..];
    assert items == [items[0]] + others;
    Regroup(Print(items[0]), PrintItems(others), x);
    PrintedReads(items[0], PrintItems(others) + x);
    if others != [] {
      ItemsRead(others, x);
    }
    HeadItemReads(items[0], others, x);
  }

  lemma {:induction false} DictReads(ms: seq<WireMember>, x: string)
    requires Ends(x)
    ensures ReadValue(Print(WObj(ms)) + x) == Some(Read(WObj(ms), x))
    decreases ms, 3
  {
    if ms == [] {
      var s := ['{', '}'] + x;
      FirstSelects(s);
      assert s[1..] == ['}'] + x && s[2..] == x;
      assert s[1..][..1] == "}";
    } else {
      var tail := PrintMember(ms[0]) + PrintMembers(ms[1..]) + x;
      assert Print(WObj(ms)) + x == ['{'] + tail;
      MembersRead(ms, x);
      assert tail[0] == '\"';
      OpensDict(tail);
    }
  }

  lemma {:induction false} MemberReads(m: WireMember, x: string)
    requires Ends(x)
    ensures ReadMember(PrintMember(m) + x) == Some(Read(m, x))
    decreases m, 1
  {
    var s, tail := PrintMember(m) + x, [':'] + (Print(m.value) + x);
    assert s == ['\"'] + (PrintUnits(m.key) + tail);
    assert s[1..] == PrintUnits(m.key) + tail;
    UnitsRead(m.key, tail);
    assert tail[1..] == Print(m.value) + x;
    PrintedReads(m.value, x);
  }

  lemma NextMember(s: string, m: WireMember, more: string, ms: seq<WireMember>, x: string)
    requires ReadMember(s) == Some(Read(m, [','] + more)) && ReadMembers(more) == Some(Read(ms, x))
    ensures ReadMembers(s) == Some(Read([m] + ms, x))
  {
    assert ([','] + more)[1..] == more;
  }

  /** One printed member in front of the rest. */
  lemma HeadMemberReads(first: WireMember, others: seq<WireMember>, x: string)
    requires ReadMember(PrintMember(first) + (PrintMembers(others) + x)) == Some(Read(first, PrintMembers(others) + x))
    requires others != [] ==> ReadMembers(PrintMember(others[0]) + PrintMembers(others[1..]) + x) == Some(Read(others, x))
    ensures ReadMembers(PrintMember(first) + (PrintMembers(others) + x)) == Some(Read([first] + others, x))
  {
    var s := PrintMember(first) + (PrintMembers(others) + x);
    if others == [] {
      assert PrintMembers(others) == ['}'];
      assert [first] + others == [first];
    } else {
      var more := PrintMember(others[0]) + PrintMembers(others[1..]) + x;
      AfterComma(PrintMember(others[0]), PrintMembers(others[1..]), x);
      NextMember(s, first, more, others, x);
    }
  }

  lemma {:induction false} MembersRead(ms: seq<WireMember>, x: string)
    requires ms != [] && Ends(x)
    ensures ReadMembers(PrintMember(ms[0]) + PrintMembers(ms[1..]) + x) == Some(Read(ms, x))
    decreases ms, 2
  {
    var others := ms[1..];
    assert ms == [ms[0]] + others;
    Regroup(PrintMember(ms[0]), PrintMembers(others), x);
    MemberReads(ms[0], PrintMembers(others) + x);
    if others != [] {
      MembersRead(others, x);
    }
    HeadMemberReads(ms[0], others, x);
  }

  // ---------- The text determines the document ----------

  /** Escapes form a prefix code. */
  lemma EscapeUnitPrefix(a: CodeUnit, b: CodeUnit, x: string, y: string)
    requires EscapeUnit(a) + x == EscapeUnit(b) + y
    ensures a == b && x == y
  {
    UnitReads(a, x);
    UnitReads(b, y);
  }

  /** A printed value, followed by anything that may follow it, determines both. */
  lemma PrintPrefix(a: Wire, b: Wire, x: string, y: string)
    requires Print(a) + x == Print(b) + y
    requires Ends(x) && Ends(y)
    ensures a == b && x == y
  {
    PrintedReads(a, x);
    PrintedReads(b, y);
  }

  /** Documents with the same text are the same document. */
  lemma PrintInjective(a: Wire, b: Wire)
    requires Print(a) == Print(b)
    ensures a == b
  {
    assert Print(a) + [] == Print(a) && Print(b) + [] == Print(b);
    PrintPrefix(a, b, [], []);
  }

  // ---------- Decoding strings ----------

  /** A surrogate pair is decoded to one code point, and whatever follows it is decoded by itself. */
  lemma PairDecodes(high: CodeUnit, low: CodeUnit, us: seq<CodeUnit>)
    requires 0xD800 <= high < 0xDC00 && 0xDC00 <= low < 0xE000
    ensures var h: int, l: int := high, low;
      Decode([high, low] + us) == [0x10000 + (h - 0xD800) * 0x400 + (l - 0xDC00)] + Decode(us)
  {
    var all := [high, low] + us;
    assert all[0] == high && all[1] == low && all[2..] == us;
  }

  lemma UnitsOfDecode(c: CodePoint, us: seq<CodeUnit>)
    requires 0xD800 <= c < 0xDC00 && us != [] ==> !(0xDC00 <= us[0] < 0xE000)
    ensures Decode(UnitsOf(c) + us) == [c] + Decode(us)
  {
    if c >= 0x10000 {
      PairDecodes(UnitsOf(c)[0], UnitsOf(c)[1], us);
      assert UnitsOf(c) == [UnitsOf(c)[0], UnitsOf(c)[1]];
    } else {
      var all := [c] + us;
      assert all[0] == c && all[1..] == us;
      assert us != [] ==> all[1] == us[0];
    }
  }

  lemma {:induction false} UnitsDecode(s: PyStr)
    requires NoSplit(s)
    ensures Decode(Units(s)) == s
  {
    if s != [] {
      var rest := s[1..];
      assert s == [s[0]] + rest;
      assert NoSplit(rest) by {
        forall i, j | 0 <= i && j == i + 1 < |rest| ensures !(0xD800 <= rest[i] < 0xDC00 && 0xDC00 <= rest[j] < 0xE000) {
          assert rest[i] == s[i + 1] && rest[j] == s[j + 1];
        }
      }
      if rest != [] {
        assert Units(rest)[0] == UnitsOf(s[1])[0];
      }
      UnitsDecode(rest);
      UnitsOfDecode(s[0], Units(rest));
    }
  }

  lemma {:induction false} DecodeNeverSplits(us: seq<CodeUnit>)
    ensures NoSplit(Decode(us))
  {
    if |us| > 1 && 0xD800 <= us[0] < 0xDC00 && 0xDC00 <= us[1] < 0xE000 {
      DecodeNeverSplits(us[2..]);
    } else if us != [] {
      DecodeNeverSplits(us[1..]);
    }
  }

  lemma {:induction false} DenotesSplitFree(w: Wire)
    ensures SplitFree(Denotes(w))
    decreases w, 0
  {
    match w
    case WStr(us) => DecodeNeverSplits(us);
    case WArr(items) =>
      forall i | 0 <= i < |items| ensures SplitFree(ItemsDenote(items)[i]) {
        DenotesSplitFree(items[i]);
      }
    case WObj(ms) => MembersSplitFree(ms);
    case _ =>
  }

  lemma {:induction false} MembersSplitFree(ms: seq<WireMember>)
    ensures forall k :: k in MembersDenote(ms) ==> NoSplit(k) && SplitFree(MembersDenote(ms)[k])
    decreases ms, 1
  {
    if ms != [] {
      var m := ms[|ms| - 1];
      MembersSplitFree(ms[..|ms| - 1]);
      DecodeNeverSplits(m.key);
      DenotesSplitFree(m.value);
    }
  }

  // ---------- Decoding documents ----------

  ghost predicate DecodedKeysDiffer(ms: seq<WireMember>) {
    forall i, j :: 0 <= i < j < |ms| ==> Decode(ms[i].key) != Decode(ms[j].key)
  }

  lemma {:induction false} MemberDenotesAt(ms: seq<WireMember>, i: nat)
    requires DecodedKeysDiffer(ms) && i < |ms|
    ensures Decode(ms[i].key) in MembersDenote(ms) && MembersDenote(ms)[Decode(ms[i].key)] == Denotes(ms[i].value)
  {
    var n := |ms| - 1;
    if i < n {
      assert DecodedKeysDiffer(ms[..n]);
      MemberDenotesAt(ms[..n], i);
    }
  }

  lemma {:induction false} DenotedKeyAt(ms: seq<WireMember>, key: PyStr) returns (i: nat)
    requires key in MembersDenote(ms)
    ensures i < |ms| && Decode(ms[i].key) == key
  {
    i := |ms| - 1;
    if key != Decode(ms[i].key) {
      i := DenotedKeyAt(ms[..i], key);
    }
  }

  lemma SplitFreeMembers(ms: seq<Member>, i: nat)
    requires DistinctKeys(ms) && SplitFree(Meaning(Obj(ms))) && i < |ms|
    ensures NoSplit(ms[i].key) && SplitFree(Meaning(ms[i].value))
  {
    MembersMeaningAt(ms);
  }

  /** A document without split pairs is what its written form stands for. */
  lemma {:induction false} WrittenDenotes(j: Json)
    requires WellFormed(j) && SplitFree(Meaning(j))
    ensures Denotes(ToWire(j)) == Meaning(j)
    decreases j, 0
  {
    match j
    case Str(s) => UnitsDecode(s);
    case Arr(items) =>
      forall i | 0 <= i < |items| ensures Denotes(ToWire(items[i])) == Meaning(items[i]) {
        assert SplitFree(ItemsMeaning(items)[i]);
        WrittenDenotes(items[i]);
      }
      assert ItemsDenote(ItemsToWire(items)) == ItemsMeaning(items);
    case Obj(ms) =>
      forall i | 0 <= i < |ms|
        ensures Decode(Units(ms[i].key)) == ms[i].key && Denotes(ToWire(ms[i].value)) == Meaning(ms[i].value)
      {
        SplitFreeMembers(ms, i);
        UnitsDecode(ms[i].key);
        WrittenDenotes(ms[i].value);
      }
      DictDenotes(ms);
    case _ =>
  }

  lemma SortedDecodes(ms: seq<Member>, i: nat) returns (k: nat)
    requires DistinctKeys(ms)
    requires forall i :: 0 <= i < |ms| ==> Decode(Units(ms[i].key)) == ms[i].key
    requires i < |SortByKey(MembersToWire(ms))|
    ensures k < |ms|
    ensures var x := SortByKey(MembersToWire(ms))[i];
      x.key == ms[k].key && x.value == ToWire(ms[k].value) && Decode(Units(x.key)) == x.key
  {
    SortIsSorted(MembersToWire(ms));
    k := Counterpart(SortByKey(MembersToWire(ms)), MembersToWire(ms), i);
  }

  lemma {:induction false} SortedKeysDecode(ms: seq<Member>)
    requires DistinctKeys(ms)
    requires forall i :: 0 <= i < |ms| ==> Decode(Units(ms[i].key)) == ms[i].key
    ensures var ks := SortByKey(MembersToWire(ms));
      DecodedKeysDiffer(WireMembers(ks)) && forall i :: 0 <= i < |ks| ==> Decode(WireMembers(ks)[i].key) == ks[i].key
  {
    var ks := SortByKey(MembersToWire(ms));
    SortIsSorted(MembersToWire(ms));
    forall i | 0 <= i < |ks| ensures Decode(WireMembers(ks)[i].key) == ks[i].key {
      var k := SortedDecodes(ms, i);
    }
    forall i, j | 0 <= i < j < |ks| ensures ks[i].key != ks[j].key {
      LessIrreflexive(ks[i].key);
    }
  }

  lemma {:induction false} MemberDenoted(ms: seq<Member>, i: nat)
    requires DistinctKeys(ms) && i < |ms|
    requires forall i :: 0 <= i < |ms| ==> Decode(Units(ms[i].key)) == ms[i].key
    ensures var m := MembersDenote(WireMembers(SortByKey(MembersToWire(ms))));
      ms[i].key in m && m[ms[i].key] == Denotes(ToWire(ms[i].value))
  {
    var ks := SortByKey(MembersToWire(ms));
    SortIsSorted(MembersToWire(ms));
    SortedKeysDecode(ms);
    var k := Counterpart(MembersToWire(ms), ks, i);
    MemberDenotesAt(WireMembers(ks), k);
  }

  lemma {:induction false} NoOtherDenoted(ms: seq<Member>, key: PyStr) returns (i: nat)
    requires DistinctKeys(ms)
    requires forall i :: 0 <= i < |ms| ==> Decode(Units(ms[i].key)) == ms[i].key
    requires key in MembersDenote(WireMembers(SortByKey(MembersToWire(ms))))
    ensures i < |ms| && ms[i].key == key
  {
    var ks := SortByKey(MembersToWire(ms));
    SortedKeysDecode(ms);
    var k := DenotedKeyAt(WireMembers(ks), key);
    i := SortedDecodes(ms, k);
  }

  lemma IsMembersMeaning(ms: seq<Member>, m: map<PyStr, Value>)
    requires DistinctKeys(ms)
    requires forall i :: 0 <= i < |ms| ==> ms[i].key in m && m[ms[i].key] == Meaning(ms[i].value)
    requires forall key :: key in m ==> exists i :: 0 <= i < |ms| && ms[i].key == key
    ensures m == MembersMeaning(ms)
  {
    MembersMeaningAt(ms);
  }

  lemma {:induction false} DictDenotes(ms: seq<Member>)
    requires DistinctKeys(ms)
    requires forall i :: 0 <= i < |ms| ==>
      Decode(Units(ms[i].key)) == ms[i].key && Denotes(ToWire(ms[i].value)) == Meaning(ms[i].value)
    ensures MembersDenote(WireMembers(SortByKey(MembersToWire(ms)))) == MembersMeaning(ms)
  {
    var m := MembersDenote(WireMembers(SortByKey(MembersToWire(ms))));
    forall i | 0 <= i < |ms| ensures ms[i].key in m && m[ms[i].key] == Meaning(ms[i].value) {
      MemberDenoted(ms, i);
    }
    forall key | key in m ensures exists i :: 0 <= i < |ms| && ms[i].key == key {
      var i := NoOtherDenoted(ms, key);
    }
    IsMembersMeaning(ms, m);
  }

  // ---------- Key order ----------

  lemma DifferAtTails(a: PyStr, b: PyStr, n: nat)
    requires a != [] && b != [] && a[0] == b[0] && DifferAt(a[1..], b[1..], n)
    ensures DifferAt(a, b, n + 1)
  {
    assert a[..n + 1] == [a[0]] + a[1..][..n] && b[..n + 1] == [b[0]] + b[1..][..n];
  }

  lemma DifferAtHeads(a: PyStr, b: PyStr, n: nat)
    requires a != [] && b != [] && DifferAt(a, b, n)
    ensures if n == 0 then a[0] < b[0] else a[0] == b[0] && DifferAt(a[1..], b[1..], n - 1)
  {
    if n > 0 {
      assert a[0] == a[..n][0] == b[..n][0] == b[0];
      assert a[1..][..n - 1] == a[..n][1..] && b[1..][..n - 1] == b[..n][1..];
      assert n < |a| ==> a[1..][n - 1] == a[n];
      assert n < |b| ==> b[1..][n - 1] == b[n];
    }
  }

  /** The sort order is the order by code point. */
  lemma {:induction false} LessIsCodePointOrder(a: PyStr, b: PyStr)
    ensures Less(a, b) <==> InCodePointOrder(a, b)
  {
    if a == [] || b == [] || a[0] < b[0] {
      assert b != [] ==> DifferAt(a, b, 0);
    } else {
      LessIsCodePointOrder(a[1..], b[1..]);
      if a[0] == b[0] && Less(a[1..], b[1..]) {
        var n: nat :| DifferAt(a[1..], b[1..], n);
        DifferAtTails(a, b, n);
      }
      if n: nat :| DifferAt(a, b, n) {
        DifferAtHeads(a, b, n);
      }
    }
  }

  lemma {:induction false} WrittenAscends(j: Json)
    requires WellFormed(j) && SplitFree(Meaning(j))
    ensures KeysAscend(ToWire(j))
    decreases j
  {
    match j
    case Arr(items) =>
      forall i | 0 <= i < |items| ensures KeysAscend(ItemsToWire(items)[i]) {
        assert SplitFree(ItemsMeaning(items)[i]);
        WrittenAscends(items[i]);
      }
    case Obj(ms) =>
      var ks := SortByKey(MembersToWire(ms));
      forall i | 0 <= i < |ms| ensures Decode(Units(ms[i].key)) == ms[i].key && KeysAscend(ToWire(ms[i].value)) {
        SplitFreeMembers(ms, i);
        UnitsDecode(ms[i].key);
        WrittenAscends(ms[i].value);
      }
      SortIsSorted(MembersToWire(ms));
      SortedKeysDecode(ms);
      forall i | 0 <= i < |ks| ensures KeysAscend(WireMembers(ks)[i].value) {
        var k := SortedDecodes(ms, i);
      }
      forall i, j | 0 <= i < j < |ks|
        ensures InCodePointOrder(Decode(WireMembers(ks)[i].key), Decode(WireMembers(ks)[j].key))
      {
        LessIsCodePointOrder(ks[i].key, ks[j].key);
      }
    case _ =>
  }

  // ---------- Main result ----------

  /**
   The canonical text of any document is one JSON value and nothing else. It reads
   back as the document itself exactly when no astral character in it is spelled as
   two surrogates, and then the keys of every dictionary in it ascend.
   */
  lemma CanonicalTextReads(j: Json)
    requires WellFormed(j)
    ensures var r := ReadValue(Dumps(j));
      && r.Some? && r.value.rest == ""
      && (Denotes(r.value.value) == Meaning(j) <==> SplitFree(Meaning(j)))
      && (SplitFree(Meaning(j)) ==> KeysAscend(r.value.value))
  {
    assert Dumps(j) + "" == Dumps(j);
    PrintedReads(ToWire(j), "");
    DenotesSplitFree(ToWire(j));
    if SplitFree(Meaning(j)) {
      WrittenDenotes(j);
      WrittenAscends(j);
    }
  }
}
