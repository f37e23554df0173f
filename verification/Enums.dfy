/** Enum tables: the text "NAME=number;NAME=number" that describes an enum to LabVIEW, and the
    two maps between LabVIEW's positions and protobuf's numbers that are built from it. */
module Enums {
  import opened Wire
  import opened Schema

  // ---------------------------------------------------------------- splitting text

  predicate OccursAt(s: string, d: string, i: nat) {
    i + |d| <= |s| && s[i..i + |d|] == d
  }

  ghost predicate Contains(s: string, d: string) { exists i: nat :: OccursAt(s, d, i) }

  function Join(pieces: seq<string>, d: string): string {
    if pieces == [] then ""
    else if |pieces| == 1 then pieces[0]
    else pieces[0] + d + Join(pieces[1..], d)
  }

  lemma {:induction false} JoinAppend(pieces: seq<string>, last: string, d: string)
    requires pieces != []
    ensures Join(pieces + [last], d) == Join(pieces, d) + d + last
  {
    if |pieces| > 1 {
      JoinAppend(pieces[1..], last, d);
      assert (pieces + [last])[1..] == pieces[1..] + [last];
      assert Join(pieces + [last], d) == pieces[0] + d + (Join(pieces[1..], d) + d + last);
    } else {
      assert (pieces + [last])[1..] == [last];
    }
  }

  /** std::string::find. */
  method Find(s: string, d: string, start: nat) returns (position: Option<nat>)
    requires start <= |s|
    ensures position.Some? ==> start <= position.value && OccursAt(s, d, position.value)
                               && forall i :: start <= i < position.value ==> !OccursAt(s, d, i)
    ensures position.None? ==> forall i :: start <= i ==> !OccursAt(s, d, i)
  {
    var i := start;
    while i + |d| <= |s|
      invariant start <= i
      invariant forall j :: start <= j < i ==> !OccursAt(s, d, j)
    {
      if s[i..i + |d|] == d { return Some(i); }
      i := i + 1;
    }
    position := None;
  }

  /** `pieces` is the text before `start`, cut; each but the part still to come ends in a
      delimiter. */
  ghost predicate CutSoFar(s: string, d: string, start: nat, pieces: seq<string>) {
    && start <= |s|
    && (if pieces == [] then start == 0 else Join(pieces, d) + d == s[..start])
    && forall p :: p in pieces ==> !Contains(p, d)
  }

  lemma CutPiece(s: string, d: string, start: nat, end: nat, pieces: seq<string>)
    requires CutSoFar(s, d, start, pieces) && start <= end <= |s| && d != ""
    requires forall i :: start <= i && i + |d| <= end ==> !OccursAt(s, d, i)
    ensures Join(pieces + [s[start..end]], d) == s[..end]
    ensures forall p :: p in pieces + [s[start..end]] ==> !Contains(p, d)
  {
    hide Contains, OccursAt;
    NoDelimiterInside(s, d, start, end);
    if pieces != [] {
      JoinAppend(pieces, s[start..end], d);
      assert s[..end] == s[..start] + s[start..end];
    }
  }

  /** The pieces put back together give the text, and none of them contains the delimiter. */
  method SplitString(s: string, delimiter: string) returns (pieces: seq<string>)
    requires delimiter != ""
    ensures pieces != [] && Join(pieces, delimiter) == s
    ensures forall p :: p in pieces ==> !Contains(p, delimiter)
  {
    hide Join, Contains;
    var start := 0;
    pieces := [];
    assert CutSoFar(s, delimiter, 0, []);
    var found := Find(s, delimiter, start);
    while found.Some?
      invariant CutSoFar(s, delimiter, start, pieces)
      invariant found.Some? ==> start <= found.value && OccursAt(s, delimiter, found.value)
                                && forall i :: start <= i < found.value ==> !OccursAt(s, delimiter, i)
      invariant found.None? ==> forall i :: start <= i ==> !OccursAt(s, delimiter, i)
      decreases |s| - start
    {
      var token := s[start..found.value];
      CutPiece(s, delimiter, start, found.value, pieces);
      assert s[..found.value + |delimiter|] == s[..found.value] + delimiter;
      start := found.value + |delimiter|;
      pieces := pieces + [token];
      found := Find(s, delimiter, start);
    }
    CutPiece(s, delimiter, start, |s|, pieces);
    assert s[start..|s|] == s[start..] && s[..|s|] == s;
    pieces := pieces + [s[start..]];
  }

  lemma NoDelimiterInside(s: string, d: string, start: nat, end: nat)
    requires start <= end <= |s| && d != ""
    requires forall i :: start <= i && i + |d| <= end ==> !OccursAt(s, d, i)
    ensures !Contains(s[start..end], d)
  {
    forall i: nat ensures !OccursAt(s[start..end], d, i) {
      if i + |d| <= end - start {
        SliceOfSlice(s, start, end, i, i + |d|);
        assert !OccursAt(s, d, start + i);
      }
    }
  }

  lemma SliceOfSlice(s: string, a: nat, b: nat, i: nat, j: nat)
    requires a <= b <= |s| && i <= j <= b - a
    ensures s[a..b][i..j] == s[a + i..a + j]
  {
    assert forall k :: 0 <= k < j - i ==> s[a..b][i..j][k] == s[a + i..a + j][k];
  }

  lemma CharIsContained(s: string, c: char)
    ensures Contains(s, [c]) <==> c in s
  {
    if c in s {
      var i: nat :| i < |s| && s[i] == c;
      assert OccursAt(s, [c], i);
    }
    if Contains(s, [c]) {
      var i: nat :| OccursAt(s, [c], i);
      assert s[i..i + 1][0] == c;
    }
  }

  /** Of two cuts of one text, the longer first piece runs over a delimiter. */
  lemma ShorterHead(p: seq<string>, q: seq<string>, c: char)
    requires p != [] && q != [] && Join(p, [c]) == Join(q, [c]) && |p[0]| < |q[0]|
    ensures c in q[0]
  {
    HeadEndsAtDelimiter(p, c);
    HeadEndsAtDelimiter(q, c);
    assert q[0][|p[0]|] == Join(p, [c])[|p[0]|];
  }

  /** For a one-character delimiter there is only one way to cut a text. */
  lemma {:induction false} SplitIsUnique(p: seq<string>, q: seq<string>, c: char)
    requires p != [] && q != [] && Join(p, [c]) == Join(q, [c])
    requires forall x :: x in p ==> c !in x
    requires forall x :: x in q ==> c !in x
    ensures p == q
    decreases |p|
  {
    HeadEndsAtDelimiter(p, c);
    HeadEndsAtDelimiter(q, c);
    var s, a, b := Join(p, [c]), p[0], q[0];
    assert c !in a && c !in b;
    if |a| < |b| {
      ShorterHead(p, q, c);
    } else if |b| < |a| {
      ShorterHead(q, p, c);
    } else {
      assert a == s[..|a|] == b;
      if |p| > 1 {
        assert |q| > 1;
        SplitIsUnique(p[1..], q[1..], c);
      }
      assert p == [a] + p[1..] && q == [b] + q[1..];
    }
  }

  lemma HeadEndsAtDelimiter(p: seq<string>, c: char)
    requires p != []
    ensures var s, n := Join(p, [c]), |p[0]|;
            && n <= |s| && s[..n] == p[0]
            && (|p| == 1 ==> n == |s|)
            && (|p| > 1 ==> n < |s| && s[n] == c && s[n + 1..] == Join(p[1..], [c]))
  {
    if |p| > 1 {
      var s, n := Join(p, [c]), |p[0]|;
      assert s == p[0] + ([c] + Join(p[1..], [c]));
    }
  }

  // -------------------------------------------------------------- decimal numbers

  function DigitOf(n: nat): char
    requires n < 10
  {
    "0123456789"[n]
  }

  predicate IsDigit(c: char) { '0' <= c <= '9' }

  function DigitValue(c: char): nat
    requires IsDigit(c)
  {
    c as nat - '0' as nat
  }

  /** std::to_string. */
  function Decimal(n: nat): (s: string)
    ensures s != "" && forall c :: c in s ==> IsDigit(c)
  {
    if n < 10 then [DigitOf(n)] else Decimal(n / 10) + [DigitOf(n % 10)]
  }

  function ToString(n: int): string {
    if n < 0 then "-" + Decimal(-n) else Decimal(n)
  }

  function SkipSpace(s: string): string {
    if s != "" && s[0] in " \t\n\r" then SkipSpace(s[1..]) else s
  }

  /** The digits at the start of a text. */
  function LeadingDigits(s: string): string {
    if s != "" && IsDigit(s[0]) then [s[0]] + LeadingDigits(s[1..]) else ""
  }

  function Number(s: string): nat
    requires forall c :: c in s ==> IsDigit(c)
  {
    if s == "" then 0 else Number(s[..|s| - 1]) * 10 + DigitValue(s[|s| - 1])
  }

  lemma {:induction false} LeadingDigitsAreDigits(s: string)
    ensures forall c :: c in LeadingDigits(s) ==> IsDigit(c)
  {
    if s != "" && IsDigit(s[0]) { LeadingDigitsAreDigits(s[1..]); }
  }

  /** std::stoi: leading space and a sign are accepted, whatever follows the digits is
      ignored, and None stands for the two exceptions. */
  function Stoi(s: string): (r: Option<int>)
    ensures r.Some? ==> -TWO_31 <= r.value < TWO_31
  {
    var t := SkipSpace(s);
    var negative := t != "" && t[0] == '-';
    var digits := LeadingDigits(if t != "" && (t[0] == '-' || t[0] == '+') then t[1..] else t);
    LeadingDigitsAreDigits(if t != "" && (t[0] == '-' || t[0] == '+') then t[1..] else t);
    if digits == "" then None
    else
      var magnitude: int := Number(digits);
      var n := if negative then -magnitude else magnitude;
      if -TWO_31 <= n < TWO_31 then Some(n) else None
  }

  lemma {:induction false} NumberInvertsDecimal(n: nat)
    ensures Number(Decimal(n)) == n
  {
    if n >= 10 {
      NumberInvertsDecimal(n / 10);
      var s := Decimal(n);
      assert s[..|s| - 1] == Decimal(n / 10);
    } else {
      assert Decimal(n)[..0] == "";
    }
  }

  lemma {:induction false} AllDigitsLead(s: string)
    requires forall c :: c in s ==> IsDigit(c)
    ensures LeadingDigits(s) == s
  {
    if s != "" {
      AllDigitsLead(s[1..]);
      assert s == [s[0]] + s[1..];
    }
  }

  lemma StoiInvertsToString(n: int)
    requires -TWO_31 <= n < TWO_31
    ensures Stoi(ToString(n)) == Some(n)
  {
    hide Decimal, Number;
    var d := Decimal(if n < 0 then -n else n);
    NumberInvertsDecimal(if n < 0 then -n else n);
    AllDigitsLead(d);
    assert IsDigit(d[0]);
    if n < 0 {
      assert ToString(n)[0] == '-' && ToString(n)[1..] == d;
      assert SkipSpace(ToString(n)) == ToString(n);
    } else {
      assert SkipSpace(d) == d;
    }
  }

  // ---------------------------------------------------------------- the two maps

  /** One "name=digits" entry. */
  datatype Row = Row(name: string, digits: string) {
    function Text(): string { name + "=" + digits }

    predicate Valid() {
      '=' !in name && '=' !in digits && ';' !in name && ';' !in digits
    }
  }

  function Texts(rows: seq<Row>): (ts: seq<string>)
    ensures |ts| == |rows| && forall i :: 0 <= i < |rows| ==> ts[i] == rows[i].Text()
  {
    seq(|rows|, i requires 0 <= i < |rows| => rows[i].Text())
  }

  /** `text` is a table with these rows: what the code asserts of its argument. */
  ghost predicate IsTable(text: string, rows: seq<Row>) {
    rows != [] && text == Join(Texts(rows), ";") && forall r :: r in rows ==> r.Valid()
  }

  /** EnumMetadata: position to number, and number to the positions that carry it. */
  datatype EnumMetadata = EnumMetadata(lvToProto: map<nat, int>, protoToLv: map<int, seq<nat>>) {
    /** None stands for InvalidEnumValueException. */
    function GetProtoValueFromLVEnumValue(position: nat): Option<int> {
      if position in lvToProto then Some(lvToProto[position]) else None
    }

    function GetLVEnumValueFromProtoValue(number: int): Option<nat> {
      if number in protoToLv && protoToLv[number] != [] then Some(protoToLv[number][0]) else None
    }
  }

  ghost predicate IsForward(m: map<nat, int>, numbers: seq<int>) {
    forall i: nat :: (i in m <==> i < |numbers|) && (i in m ==> m[i] == numbers[i])
  }

  ghost predicate IsReverse(m: map<int, seq<nat>>, numbers: seq<int>) {
    forall v :: (v in m <==> v in numbers) && (v in m ==> IsPositionsOf(m[v], numbers, v))
  }

  /** `ps` lists exactly the positions of `v`, ascending. */
  ghost predicate IsPositionsOf(ps: seq<nat>, numbers: seq<int>, v: int) {
    && (forall i, j :: 0 <= i < j < |ps| ==> ps[i] < ps[j])
    && (forall p: nat :: p in ps <==> p < |numbers| && numbers[p] == v)
  }

  method Rows(enumValues: string, ghost rows: seq<Row>) returns (entries: seq<string>)
    requires IsTable(enumValues, rows)
    ensures entries == Texts(rows)
  {
    entries := SplitString(enumValues, ";");
    forall e | e in entries ensures ';' !in e { CharIsContained(e, ';'); }
    forall t | t in Texts(rows) ensures ';' !in t {
      var i :| 0 <= i < |rows| && Texts(rows)[i] == t;
      assert rows[i].Valid();
    }
    SplitIsUnique(entries, Texts(rows), ';');
  }

  /** The number of one entry; None when stoi throws. */
  method EntryNumber(entry: string, ghost row: Row) returns (number: Option<int>)
    requires row.Valid() && entry == row.Text()
    ensures number == Stoi(row.digits)
  {
    var keyValue := SplitString(entry, "=");
    forall e | e in keyValue ensures '=' !in e { CharIsContained(e, '='); }
    assert Join([row.name, row.digits], "=") == row.name + "=" + Join([row.digits], "=");
    SplitIsUnique(keyValue, [row.name, row.digits], '=');
    number := Stoi(keyValue[1]);
  }

  /** The numbers the rows stand for. */
  ghost predicate Numbered(rows: seq<Row>, numbers: seq<int>) {
    |numbers| == |rows| && forall i :: 0 <= i < |rows| ==> Stoi(rows[i].digits) == Some(numbers[i])
  }

  lemma NumberedGrows(rows: seq<Row>, i: nat, numbers: seq<int>, number: int)
    requires i < |rows| && Numbered(rows[..i], numbers) && Stoi(rows[i].digits) == Some(number)
    ensures Numbered(rows[..i + 1], numbers + [number])
  {
  }

  lemma NoPositions()
    ensures IsReverse(map[], [])
  {
  }

  method CreateMapBetweenLVEnumAndProtoEnumvalues(enumValues: string, ghost rows: seq<Row>)
    returns (m: Option<map<nat, int>>, ghost numbers: seq<int>)
    requires IsTable(enumValues, rows)
    ensures m.Some? <==> forall r :: r in rows ==> Stoi(r.digits).Some?
    ensures m.Some? ==> Numbered(rows, numbers) && IsForward(m.value, numbers)
  {
    hide Stoi, Join;
    var entries := Rows(enumValues, rows);
    var lvEnumToProtoEnum: map<nat, int> := map[];
    numbers := [];
    for i := 0 to |entries|
      invariant Numbered(rows[..i], numbers) && IsForward(lvEnumToProtoEnum, numbers)
    {
      var number := EntryNumber(entries[i], rows[i]);
      if number.None? { return None, []; }
      NumberedGrows(rows, i, numbers, number.value);
      lvEnumToProtoEnum := lvEnumToProtoEnum[i := number.value];
      numbers := numbers + [number.value];
    }
    assert rows[..|entries|] == rows;
    m := Some(lvEnumToProtoEnum);
  }

  method CreateMapBetweenProtoEnumAndLVEnumvalues(enumValues: string, ghost rows: seq<Row>)
    returns (m: Option<map<int, seq<nat>>>, ghost numbers: seq<int>)
    requires IsTable(enumValues, rows)
    ensures m.Some? <==> forall r :: r in rows ==> Stoi(r.digits).Some?
    ensures m.Some? ==> Numbered(rows, numbers) && IsReverse(m.value, numbers)
  {
    hide Stoi, Join, IsReverse;
    assert IsReverse(map[], []) by { NoPositions(); }
    var entries := Rows(enumValues, rows);
    var protoEnumToLVEnum: map<int, seq<nat>> := map[];
    numbers := [];
    for i := 0 to |entries|
      invariant Numbered(rows[..i], numbers) && IsReverse(protoEnumToLVEnum, numbers)
    {
      var number := EntryNumber(entries[i], rows[i]);
      if number.None? { return None, []; }
      var positions := if number.value in protoEnumToLVEnum then protoEnumToLVEnum[number.value] else [];
      NumberedGrows(rows, i, numbers, number.value);
      PositionsGrow(protoEnumToLVEnum, numbers, number.value);
      protoEnumToLVEnum := protoEnumToLVEnum[number.value := positions + [i]];
      numbers := numbers + [number.value];
    }
    assert rows[..|entries|] == rows;
    m := Some(protoEnumToLVEnum);
  }

  lemma PositionsAppend(ps: seq<nat>, numbers: seq<int>, v: int)
    requires IsPositionsOf(ps, numbers, v)
    ensures IsPositionsOf(ps + [|numbers|], numbers + [v], v)
  {
    var qs, more := ps + [|numbers|], numbers + [v];
    forall i, j | 0 <= i < j < |qs| ensures qs[i] < qs[j] {
      assert ps[i] in ps;
    }
    forall p: nat ensures p in qs <==> p < |more| && more[p] == v {
      assert p in qs <==> p in ps || p == |numbers|;
    }
  }

  lemma PositionsKept(ps: seq<nat>, numbers: seq<int>, v: int, w: int)
    requires IsPositionsOf(ps, numbers, w) && w != v
    ensures IsPositionsOf(ps, numbers + [v], w)
  {
  }

  lemma PositionsGrow(m: map<int, seq<nat>>, numbers: seq<int>, v: int)
    requires IsReverse(m, numbers)
    ensures var ps := if v in m then m[v] else [];
            IsReverse(m[v := ps + [|numbers|]], numbers + [v])
  {
    var ps, more := if v in m then m[v] else [], numbers + [v];
    var m' := m[v := ps + [|numbers|]];
    assert IsPositionsOf(ps, numbers, v);
    hide IsPositionsOf;
    PositionsAppend(ps, numbers, v);
    forall w ensures (w in m' <==> w in more) && (w in m' ==> IsPositionsOf(m'[w], more, w)) {
      assert w in more <==> w in numbers || w == v;
      if w != v && w in m { PositionsKept(m[w], numbers, v, w); }
    }
  }

  /** The metadata of an enum whose numbers, in declared order, are `numbers`. */
  ghost predicate Describes(e: EnumMetadata, numbers: seq<int>) {
    IsForward(e.lvToProto, numbers) && IsReverse(e.protoToLv, numbers)
  }

  lemma NumbersAreUnique(rows: seq<Row>, a: seq<int>, b: seq<int>)
    requires Numbered(rows, a) && Numbered(rows, b)
    ensures a == b
  {
    forall i | 0 <= i < |rows| ensures a[i] == b[i] { assert Some(a[i]) == Some(b[i]); }
  }

  /** The two maps of one enum, as CreateEnumMetadata2 fills them. */
  method CreateEnumMetadata(elements: string, ghost rows: seq<Row>)
    returns (e: Option<EnumMetadata>, ghost numbers: seq<int>)
    requires IsTable(elements, rows)
    ensures e.Some? <==> forall r :: r in rows ==> Stoi(r.digits).Some?
    ensures e.Some? ==> Numbered(rows, numbers) && Describes(e.value, numbers)
  {
    var forward, a := CreateMapBetweenLVEnumAndProtoEnumvalues(elements, rows);
    var reverse, b := CreateMapBetweenProtoEnumAndLVEnumvalues(elements, rows);
    if forward.None? || reverse.None? { return None, []; }
    NumbersAreUnique(rows, a, b);
    e := Some(EnumMetadata(forward.value, reverse.value));
    numbers := a;
  }

  /** A number is known exactly when the enum declares it; it is sent to its first position,
      and coming back from there, or from any alias, gives the number again. */
  lemma EnumLookups(e: EnumMetadata, numbers: seq<int>, number: int, position: nat)
    requires Describes(e, numbers)
    ensures e.GetProtoValueFromLVEnumValue(position) == if position < |numbers| then Some(numbers[position]) else None
    ensures e.GetLVEnumValueFromProtoValue(number).Some? <==> number in numbers
    ensures number in numbers ==>
              e.GetProtoValueFromLVEnumValue(e.GetLVEnumValueFromProtoValue(number).value) == Some(number)
    ensures position < |numbers| ==>
              IsLeastAlias(numbers, position, e.GetLVEnumValueFromProtoValue(numbers[position]))
  {
    if number in numbers { FirstPosition(e, numbers, number); }
    if position < |numbers| { FirstPosition(e, numbers, numbers[position]); }
  }

  ghost predicate IsLeastAlias(numbers: seq<int>, position: nat, alias: Option<nat>)
    requires position < |numbers|
  {
    && alias.Some? && alias.value <= position && numbers[alias.value] == numbers[position]
    && forall i :: 0 <= i < alias.value ==> numbers[i] != numbers[position]
  }

  lemma FirstPosition(e: EnumMetadata, numbers: seq<int>, v: int)
    requires Describes(e, numbers) && v in numbers
    ensures var p := e.GetLVEnumValueFromProtoValue(v);
            p.Some? && p.value < |numbers| && numbers[p.value] == v
            && forall i :: 0 <= i < p.value ==> numbers[i] != v
  {
    var ps := e.protoToLv[v];
    assert IsPositionsOf(ps, numbers, v);
    var k: nat :| k < |numbers| && numbers[k] == v;
    assert k in ps;
    assert ps[0] in ps;
    forall i: nat | i < |numbers| && numbers[i] == v ensures ps[0] <= i {
      var j :| 0 <= j < |ps| && ps[j] == i;
    }
  }

  // ------------------------------------------------------------- the printer

  datatype Enumerator = Enumerator(name: string, number: int)

  function RowsOf(values: seq<Enumerator>): (rows: seq<Row>)
    ensures |rows| == |values|
    ensures forall i :: 0 <= i < |values| ==> rows[i] == Row(values[i].name, ToString(values[i].number))
  {
    seq(|values|, i requires 0 <= i < |values| => Row(values[i].name, ToString(values[i].number)))
  }

  method GetEnumNames(values: seq<Enumerator>) returns (enumNames: string)
    ensures enumNames == Join(Texts(RowsOf(values)), ";")
  {
    enumNames := "";
    ghost var texts := Texts(RowsOf(values));
    for i := 0 to |values|
      invariant enumNames == Join(texts[..i], ";") + if 0 < i < |values| then ";" else ""
    {
      var enumVal := values[i].name + "=" + ToString(values[i].number);
      PrefixGrows(texts, i);
      enumNames := enumNames + (enumVal + if i < |values| - 1 then ";" else "");
    }
    assert texts[..|values|] == texts;
  }

  lemma PrefixGrows(texts: seq<string>, i: nat)
    requires i < |texts|
    ensures Join(texts[..i + 1], ";") == Join(texts[..i], ";") + (if i > 0 then ";" else "") + texts[i]
  {
    assert texts[..i + 1] == texts[..i] + [texts[i]];
    if i > 0 { JoinAppend(texts[..i], texts[i], ";"); }
  }

  /** Reading back what GetEnumNames prints gives the declared numbers, position by position. */
  lemma PrintedTableIsRead(values: seq<Enumerator>)
    requires IsPrintable(values)
    ensures IsTable(Join(Texts(RowsOf(values)), ";"), RowsOf(values))
    ensures Numbered(RowsOf(values), NumbersOf(values))
  {
    forall i | 0 <= i < |values|
      ensures RowsOf(values)[i].Valid() && Stoi(RowsOf(values)[i].digits) == Some(values[i].number)
    {
      assert values[i] in values;
      StoiInvertsToString(values[i].number);
      var d := Decimal(if values[i].number < 0 then -values[i].number else values[i].number);
      assert forall c :: c in d ==> IsDigit(c);
      assert forall c :: c in ToString(values[i].number) ==> c == '-' || IsDigit(c);
    }
  }

  predicate IsPrintable(values: seq<Enumerator>) {
    values != [] && forall v :: v in values ==> '=' !in v.name && ';' !in v.name && -TWO_31 <= v.number < TWO_31
  }

  function NumbersOf(values: seq<Enumerator>): seq<int> {
    seq(|values|, i requires 0 <= i < |values| => values[i].number)
  }

  /** The table that the importer prints, read by the registration of the enum: the two maps
      describe exactly the declared numbers. */
  method RegisterPrintedEnum(values: seq<Enumerator>) returns (e: Option<EnumMetadata>)
    requires IsPrintable(values)
    ensures e.Some? && Describes(e.value, NumbersOf(values))
  {
    hide Describes, Numbered, IsTable, Stoi, Join;
    var names := GetEnumNames(values);
    PrintedTableIsRead(values);
    ghost var numbers;
    e, numbers := CreateEnumMetadata(names, RowsOf(values));
    assert forall r :: r in RowsOf(values) ==> Stoi(r.digits).Some? by { AllRead(RowsOf(values), NumbersOf(values)); }
    NumbersAreUnique(RowsOf(values), numbers, NumbersOf(values));
  }

  lemma AllRead(rows: seq<Row>, numbers: seq<int>)
    requires Numbered(rows, numbers)
    ensures forall r :: r in rows ==> Stoi(r.digits).Some?
  {
  }

  /** The table of an enum with A = 1 and B = -12. */
  lemma TableExample()
    ensures Join(Texts(RowsOf([Enumerator("A", 1), Enumerator("B", -12)])), ";") == "A=1;B=-12"
  {
    hide Decimal, ToString, Join;
    DecimalExample();
    var rows := RowsOf([Enumerator("A", 1), Enumerator("B", -12)]);
    assert rows[0].Text() == "A=1" && rows[1].Text() == "B=-12";
    assert Texts(rows) == ["A=1", "B=-12"];
    JoinExample();
  }

  lemma JoinExample()
    ensures Join(["A=1", "B=-12"], ";") == "A=1;B=-12"
  {
    assert ["A=1", "B=-12"][1..] == ["B=-12"];
  }

  lemma DecimalExample()
    ensures ToString(1) == "1" && ToString(-12) == "-12"
  {
    assert Decimal(1) == "1";
    assert Decimal(12) == Decimal(1) + [DigitOf(2)];
  }

  /** What counts as a number in a table. */
  lemma NumbersInText()
    ensures Stoi("-12") == Some(-12) && Stoi(" +7x") == Some(7) && Stoi("x") == None
  {
    StoiInvertsToString(-12);
    DecimalExample();
    assert " +7x"[1..] == "+7x" && "+7x"[1..] == "7x" && "7x"[1..] == "x";
    assert LeadingDigits("x") == "";
    assert LeadingDigits("7x") == "7";
    assert SkipSpace("+7x") == "+7x" && SkipSpace(" +7x") == "+7x" && SkipSpace("x") == "x";
    assert "7"[..0] == "" && Number("7") == 7;
  }
}
