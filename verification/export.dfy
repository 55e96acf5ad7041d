/** `make_link_json`: the registry rendered as a JSON array with one object
    per record, in list order:
      [{"T":<millis>,"A":"<address as %04X>","R":<range[0]>,"Rx":<dbm>,"C":<co2>},...]
    The clock and the `%.2f` rendering of reals are parameters. */
module Export {
  import opened Anchor
  import opened Registry

  /** The unsigned 32-bit value `millis()` returns. */
  type UInt32 = x: int | 0 <= x < 0x1_0000_0000

  /** The signed 32-bit `int` that carries the CO2 reading. */
  type Int32 = x: int | -0x8000_0000 <= x < 0x8000_0000

  /** The upper-case hexadecimal digit of a value below 16. */
  function HexDigit(d: nat): (c: char)
    requires d < 0x10
    ensures IsHexDigit(c)
  {
    if d < 10 then ('0' as nat + d) as char else ('A' as nat + d - 10) as char
  }

  predicate IsHexDigit(c: char)
  {
    '0' <= c <= '9' || 'A' <= c <= 'F'
  }

  /** `x & 0xFFFF` for a non-negative `x`. */
  function Mask16(x: nat): (r: Addr)
    ensures x < 0x1_0000 ==> r == x
    ensures (x - r) % 0x1_0000 == 0
  {
    x % 0x1_0000
  }

  /** `%04X` of `addr & 0xFFFF`: four upper-case hexadecimal digits, most
      significant first, padded with zeros. */
  function Hex4(addr: Addr): (s: string)
    ensures IsHex4(s)
  {
    var v := Mask16(addr);
    var v1 := v / 0x10;
    var v2 := v1 / 0x10;
    [HexDigit(v2 / 0x10), HexDigit(v2 % 0x10), HexDigit(v1 % 0x10), HexDigit(v % 0x10)]
  }

  /** The value of one upper-case hexadecimal digit. */
  function HexValue(c: char): (v: nat)
    requires IsHexDigit(c)
    ensures v < 0x10 && HexDigit(v) == c
  {
    if '0' <= c <= '9' then c as nat - '0' as nat else c as nat - 'A' as nat + 10
  }

  lemma HexValueOfDigit(d: nat)
    requires d < 0x10
    ensures HexValue(HexDigit(d)) == d
  {
  }

  predicate IsHex4(s: string)
  {
    |s| == 4 && forall k :: 0 <= k < 4 ==> IsHexDigit(s[k])
  }

  /** Reads four upper-case hexadecimal digits back as an address. */
  function ParseHex4(s: string): (a: Addr)
    requires IsHex4(s)
  {
    ((HexValue(s[0]) * 0x10 + HexValue(s[1])) * 0x10 + HexValue(s[2])) * 0x10 + HexValue(s[3])
  }

  /** The address text reads back as the address. */
  lemma Hex4RoundTrip(addr: Addr)
    ensures IsHex4(Hex4(addr))
    ensures ParseHex4(Hex4(addr)) == addr
  {
    var s := Hex4(addr);
    var v1 := addr / 0x10;
    var v2 := v1 / 0x10;
    HexValueOfDigit(v2 / 0x10);
    HexValueOfDigit(v2 % 0x10);
    HexValueOfDigit(v1 % 0x10);
    HexValueOfDigit(addr % 0x10);
    assert v2 == v2 / 0x10 * 0x10 + v2 % 0x10;
    assert v1 == v2 * 0x10 + v1 % 0x10;
    assert addr == v1 * 0x10 + addr % 0x10;
  }

  /** Every four-digit upper-case hexadecimal text is the rendering of
      exactly one address, so distinct addresses render differently. */
  lemma Hex4Onto(s: string)
    requires IsHex4(s)
    ensures Hex4(ParseHex4(s)) == s
  {
    var a := ParseHex4(s);
    var h0, h1, h2, h3 := HexValue(s[0]), HexValue(s[1]), HexValue(s[2]), HexValue(s[3]);
    var v2 := h0 * 0x10 + h1;
    var v1 := v2 * 0x10 + h2;
    assert a == v1 * 0x10 + h3;
    DivMod16(v1, h3);
    DivMod16(v2, h2);
    DivMod16(h0, h1);
    assert Mask16(a) == a;
    assert a / 0x10 == v1;
    assert v1 / 0x10 == v2;
    var r := Hex4(a);
    assert r[0] == s[0] && r[1] == s[1] && r[2] == s[2] && r[3] == s[3];
  }

  lemma DivMod16(q: nat, r: nat)
    requires r < 0x10
    ensures (q * 0x10 + r) / 0x10 == q && (q * 0x10 + r) % 0x10 == r
  {
  }

  function Digit(d: nat): (c: char)
    requires d < 10
    ensures '0' <= c <= '9'
  {
    ('0' as nat + d) as char
  }

  predicate AllDigits(s: string)
  {
    forall k :: 0 <= k < |s| ==> '0' <= s[k] <= '9'
  }

  /** The number a text of decimal digits denotes. */
  function DecimalValue(s: string): nat
    requires AllDigits(s)
  {
    if s == [] then 0 else 10 * DecimalValue(s[..|s| - 1]) + (s[|s| - 1] as nat - '0' as nat)
  }

  /** `%lu`: the decimal text of `n`. */
  function Decimal(n: nat): (s: string)
    ensures 1 <= |s| && AllDigits(s)
    ensures s[0] == '0' <==> n == 0
    ensures s[0] == '0' ==> s == "0"
  {
    if n < 10 then [Digit(n)] else Decimal(n / 10) + [Digit(n % 10)]
  }

  /** The decimal text of `n` is the shortest one: digits only, no leading
      zero, and it reads back as `n`. */
  lemma {:induction false} DecimalRoundTrip(n: nat)
    ensures 1 <= |Decimal(n)|
    ensures AllDigits(Decimal(n))
    ensures Decimal(n)[0] == '0' ==> Decimal(n) == "0"
    ensures DecimalValue(Decimal(n)) == n
    decreases n
  {
    if n >= 10 {
      DecimalRoundTrip(n / 10);
      var s := Decimal(n);
      assert s[..|s| - 1] == Decimal(n / 10);
    }
  }

  /** `%d`: a minus sign for negative values, then the magnitude. */
  function SignedDecimal(x: int): (s: string)
    ensures 1 <= |s| && (s[0] == '-' <==> x < 0)
    ensures var digits := if x < 0 then s[1..] else s;
      1 <= |digits| && (digits[0] == '0' ==> digits == "0")
  {
    if x < 0 then "-" + Decimal(-x) else Decimal(x)
  }

  /** The text of a signed value starts with a minus sign exactly when the
      value is negative, and its digits read back as the magnitude. */
  lemma SignedDecimalRoundTrip(x: int)
    ensures var s := SignedDecimal(x);
      && 1 <= |s|
      && (s[0] == '-' <==> x < 0)
      && var digits := if x < 0 then s[1..] else s;
         AllDigits(digits) && (digits[0] == '0' ==> digits == "0")
         && DecimalValue(digits) == (if x < 0 then -x else x)
  {
    DecimalRoundTrip(if x < 0 then -x else x);
    if x < 0 {
      assert SignedDecimal(x)[1..] == Decimal(-x);
    }
  }

  const ObjectHead: string := "{\"T\":"
  const AddrKey: string := ",\"A\":\""

  /** One record as the JSON object `make_link_json` prints for it; `t` is
      the clock reading taken for it. */
  function ObjectText(r: Record, t: UInt32, co2: Int32, fixed2: real -> string): (s: string)
    ensures |s| > 0 && s[0] == '{' && s[|s| - 1] == '}'
  {
    ObjectHead + ObjectBody(r, t, co2, fixed2) + "}"
  }

  /** The object between its opening key and its closing brace. */
  function ObjectBody(r: Record, t: UInt32, co2: Int32, fixed2: real -> string): string
  {
    Decimal(t) + AddrKey + Hex4(r.addr) + ObjectTail(r, co2, fixed2)
  }

  /** The object between the address digits and the closing brace: the
      closing quote, the distance, the signal strength and the CO2 value. */
  function ObjectTail(r: Record, co2: Int32, fixed2: real -> string): string
  {
    "\",\"R\":" + fixed2(r.range.latest) + ",\"Rx\":" + fixed2(r.dbm) + ",\"C\":" + SignedDecimal(co2)
  }

  /** The object opens with the timestamp key and closes with a brace, and
      its `"A"` field holds exactly the four hexadecimal digits of the
      address, closed by a quote. */
  lemma ObjectAddressField(r: Record, t: UInt32, co2: Int32, fixed2: real -> string)
    ensures var s := ObjectText(r, t, co2, fixed2);
      var k := |ObjectHead| + |Decimal(t)| + |AddrKey|;
      && |s| > k + 4
      && s[..|ObjectHead|] == ObjectHead
      && s[k - |AddrKey|..k] == AddrKey
      && s[k..k + 4] == Hex4(r.addr)
      && IsHex4(s[k..k + 4]) && ParseHex4(s[k..k + 4]) == r.addr
      && s[k + 4] == '"'
      && s[|s| - 1] == '}'
  {
    var head := ObjectHead + Decimal(t);
    var pre := head + AddrKey;
    var rest := ObjectTail(r, co2, fixed2) + "}";
    var s := pre + Hex4(r.addr) + rest;
    assert ObjectBody(r, t, co2, fixed2) == Decimal(t) + AddrKey + Hex4(r.addr) + ObjectTail(r, co2, fixed2);
    assert s == ObjectText(r, t, co2, fixed2);
    SliceOfConcat(ObjectHead, Decimal(t), AddrKey + Hex4(r.addr) + rest);
    SliceOfConcat(head, AddrKey, Hex4(r.addr) + rest);
    SliceOfConcat(pre, Hex4(r.addr), rest);
    assert s[|pre| + 4] == rest[0];
    Hex4RoundTrip(r.addr);
  }

  lemma SliceOfConcat(a: string, b: string, c: string)
    ensures (a + b + c)[..|a|] == a
    ensures (a + b + c)[|a|..|a| + |b|] == b
  {
  }

  /** The objects of the export, one per record, in list order; record `i`
      is stamped with `clock(i)`, the reading taken when it is printed. */
  function Objects(l: Link, clock: nat -> UInt32, co2: Int32, fixed2: real -> string): (objs: seq<string>)
    ensures |objs| == |l|
    ensures forall i :: 0 <= i < |l| ==> objs[i] == ObjectText(l[i], clock(i), co2, fixed2)
  {
    seq(|l|, i requires 0 <= i < |l| => ObjectText(l[i], clock(i), co2, fixed2))
  }

  /** The texts separated by single commas, with none before the first or
      after the last. */
  function Join(xs: seq<string>): (s: string)
  {
    if |xs| == 0 then ""
    else if |xs| == 1 then xs[0]
    else Join(xs[..|xs| - 1]) + "," + xs[|xs| - 1]
  }

  /** Appending a text adds one comma before it, unless it is the first. */
  lemma JoinSnoc(xs: seq<string>, x: string)
    ensures Join(xs + [x]) == if xs == [] then x else Join(xs) + "," + x
  {
  }

  lemma JoinStep(xs: seq<string>, i: nat)
    requires i < |xs|
    ensures Join(xs[..i + 1]) == if i == 0 then xs[i] else Join(xs[..i]) + "," + xs[i]
  {
    assert xs[..i + 1] == xs[..i] + [xs[i]];
    JoinSnoc(xs[..i], xs[i]);
  }

  /** The exported text. */
  function LinkJson(l: Link, clock: nat -> UInt32, co2: Int32, fixed2: real -> string): (s: string)
    ensures |s| >= 2 && s[0] == '[' && s[|s| - 1] == ']'
  {
    "[" + Join(Objects(l, clock, co2, fixed2)) + "]"
  }

  /** The loop of `make_link_json`: the `first` flag puts a comma before
      every object but the first. */
  method MakeLinkJson(l: Link, clock: nat -> UInt32, co2: Int32, fixed2: real -> string) returns (s: string)
    ensures s == LinkJson(l, clock, co2, fixed2)
  {
    ghost var objs := Objects(l, clock, co2, fixed2);
    s := "[";
    var first := true;
    var i := 0;
    while i < |l|
      invariant 0 <= i <= |l|
      invariant first <==> i == 0
      invariant s == "[" + Join(objs[..i])
    {
      var obj := ObjectText(l[i], clock(i), co2, fixed2);
      JoinStep(objs, i);
      AppendObject(s, Join(objs[..i]), obj, first);
      if !first {
        s := s + ",";
      }
      first := false;
      s := s + obj;
      i := i + 1;
    }
    assert objs[..|l|] == objs;
    s := s + "]";
  }

  /** One pass of the loop body: a comma unless it is the first object,
      then the object. */
  lemma AppendObject(s: string, joined: string, obj: string, first: bool)
    requires s == "[" + joined
    ensures (if first then s + obj else s + "," + obj) == "[" + (if first then joined + obj else joined + "," + obj)
  {
  }

  /** How often `c` occurs in `s`. */
  function Occurrences(s: string, c: char): nat
  {
    if s == [] then 0 else Occurrences(s[..|s| - 1], c) + (if s[|s| - 1] == c then 1 else 0)
  }

  lemma {:induction false} OccurrencesConcat(a: string, b: string, c: char)
    ensures Occurrences(a + b, c) == Occurrences(a, c) + Occurrences(b, c)
    decreases |b|
  {
    if b != [] {
      assert (a + b)[..|a + b| - 1] == a + b[..|b| - 1];
      OccurrencesConcat(a, b[..|b| - 1], c);
    } else {
      assert a + b == a;
    }
  }

  lemma OccurrencesSingle(x: char, c: char)
    ensures Occurrences([x], c) == if x == c then 1 else 0
  {
    assert [x][..0] == [];
  }

  lemma {:induction false} OccurrencesNone(s: string, c: char)
    requires c !in s
    ensures Occurrences(s, c) == 0
    decreases |s|
  {
    if s != [] {
      OccurrencesNone(s[..|s| - 1], c);
    }
  }

  /** The timestamp key opens the object's only opening brace. */
  lemma HeadBraces(c: char)
    requires c == '{' || c == '}'
    ensures Occurrences(ObjectHead, c) == (if c == '{' then 1 else 0)
  {
    assert ObjectHead == "{" + "\"T\":";
    OccurrencesSingle('{', c);
    OccurrencesNone("\"T\":", c);
    OccurrencesConcat("{", "\"T\":", c);
  }

  lemma NotInConcat(a: string, b: string, c: char)
    requires c !in a && c !in b
    ensures c !in a + b
  {
  }

  /** Rendered numbers and addresses hold no braces. */
  lemma NumbersBraceFree(addr: Addr, t: UInt32, co2: Int32, c: char)
    requires c == '{' || c == '}'
    ensures c !in Decimal(t) && c !in Hex4(addr) && c !in SignedDecimal(co2)
  {
    DecimalRoundTrip(t);
    Hex4RoundTrip(addr);
    SignedDecimalRoundTrip(co2);
    var sd := SignedDecimal(co2);
    assert sd == [sd[0]] + sd[1..];
  }

  /** Between its opening key and its closing brace an object holds no
      brace, provided the rendered reals hold none. */
  lemma BodyBraceFree(r: Record, t: UInt32, co2: Int32, fixed2: real -> string, c: char)
    requires c == '{' || c == '}'
    requires c !in fixed2(r.range.latest) && c !in fixed2(r.dbm)
    ensures c !in ObjectBody(r, t, co2, fixed2)
  {
    NumbersBraceFree(r.addr, t, co2, c);
    var p1 := "\",\"R\":" + fixed2(r.range.latest);
    NotInConcat("\",\"R\":", fixed2(r.range.latest), c);
    var p2 := p1 + ",\"Rx\":";
    NotInConcat(p1, ",\"Rx\":", c);
    var p3 := p2 + fixed2(r.dbm);
    NotInConcat(p2, fixed2(r.dbm), c);
    var p4 := p3 + ",\"C\":";
    NotInConcat(p3, ",\"C\":", c);
    NotInConcat(p4, SignedDecimal(co2), c);
    assert ObjectTail(r, co2, fixed2) == p4 + SignedDecimal(co2);
    NotInConcat(Decimal(t), AddrKey, c);
    NotInConcat(Decimal(t) + AddrKey, Hex4(r.addr), c);
    NotInConcat(Decimal(t) + AddrKey + Hex4(r.addr), ObjectTail(r, co2, fixed2), c);
  }

  /** An object opens exactly one brace and closes exactly one, provided the
      rendered reals contain no braces. */
  lemma ObjectBraces(r: Record, t: UInt32, co2: Int32, fixed2: real -> string, c: char)
    requires c == '{' || c == '}'
    requires c !in fixed2(r.range.latest) && c !in fixed2(r.dbm)
    ensures Occurrences(ObjectText(r, t, co2, fixed2), c) == 1
  {
    var body := ObjectBody(r, t, co2, fixed2);
    BodyBraceFree(r, t, co2, fixed2, c);
    OccurrencesNone(body, c);
    HeadBraces(c);
    OccurrencesSingle('}', c);
    OccurrencesConcat(ObjectHead + body, "}", c);
    OccurrencesConcat(ObjectHead, body, c);
  }

  /** Joined texts that each hold one `c` hold `|xs|` of them, when `c` is
      not the separator. */
  lemma {:induction false} JoinOccurrences(xs: seq<string>, c: char)
    requires c != ','
    requires forall i :: 0 <= i < |xs| ==> Occurrences(xs[i], c) == 1
    ensures Occurrences(Join(xs), c) == |xs|
    decreases |xs|
  {
    if |xs| == 1 {
    } else if |xs| > 1 {
      var init := xs[..|xs| - 1];
      JoinOccurrences(init, c);
      OccurrencesSingle(',', c);
      OccurrencesConcat(Join(init), ",", c);
      OccurrencesConcat(Join(init) + ",", xs[|xs| - 1], c);
    }
  }

  /** The export holds exactly one object per record: as many opening and
      as many closing braces as there are records, provided the rendered
      reals hold no braces. */
  lemma ExportObjectCount(l: Link, clock: nat -> UInt32, co2: Int32, fixed2: real -> string, c: char)
    requires c == '{' || c == '}'
    requires forall x :: c !in fixed2(x)
    ensures Occurrences(LinkJson(l, clock, co2, fixed2), c) == |l|
  {
    var objs := Objects(l, clock, co2, fixed2);
    forall i | 0 <= i < |objs|
      ensures Occurrences(objs[i], c) == 1
    {
      ObjectBraces(l[i], clock(i), co2, fixed2, c);
    }
    JoinOccurrences(objs, c);
    OccurrencesSingle('[', c);
    OccurrencesSingle(']', c);
    OccurrencesConcat("[", Join(objs), c);
    OccurrencesConcat("[" + Join(objs), "]", c);
  }

  /** Joined non-empty texts start with the first one's first character and
      end with the last one's last character: no separator leads or trails. */
  lemma {:induction false} JoinEnds(xs: seq<string>)
    requires |xs| > 0
    requires forall i :: 0 <= i < |xs| ==> |xs[i]| > 0
    ensures |Join(xs)| > 0
    ensures Join(xs)[0] == xs[0][0]
    ensures Join(xs)[|Join(xs)| - 1] == xs[|xs| - 1][|xs[|xs| - 1]| - 1]
    decreases |xs|
  {
    if |xs| > 1 {
      JoinEnds(xs[..|xs| - 1]);
    }
  }

  /** The export is bracketed; it is exactly `[]` for an empty registry, and
      otherwise its first object opens right after `[` and its last object
      closes right before `]`, so no comma leads or trails. */
  lemma ExportShape(l: Link, clock: nat -> UInt32, co2: Int32, fixed2: real -> string)
    ensures var s := LinkJson(l, clock, co2, fixed2);
      && |s| >= 2 && s[0] == '[' && s[|s| - 1] == ']'
      && (|l| == 0 <==> s == "[]")
      && (|l| > 0 ==> s[1] == '{' && s[|s| - 2] == '}')
  {
    var objs := Objects(l, clock, co2, fixed2);
    if |l| > 0 {
      forall i | 0 <= i < |objs|
        ensures |objs[i]| > 0 && objs[i][0] == '{' && objs[i][|objs[i]| - 1] == '}'
      {
        ObjectAddressField(l[i], clock(i), co2, fixed2);
      }
      JoinEnds(objs);
    }
  }
}
