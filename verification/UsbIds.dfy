/** The list of USB identities in the configuration: its parser and its printer. */
module UsbIds {
  import opened Outcome

  datatype UsbId = UsbId(vendor: nat, product: nat)

  /** Both numbers are 16 bits wide. */
  predicate Valid(id: UsbId) {
    id.vendor < 0x1_0000 && id.product < 0x1_0000
  }

  predicate AllValid(ids: seq<UsbId>) {
    forall i | 0 <= i < |ids| :: Valid(ids[i])
  }

  // ---------------------------------------------------------------- text

  /** The pieces between separators: one more than there are separators. */
  function Split(s: string, separator: char): (parts: seq<string>)
    ensures |parts| >= 1
  {
    if s == "" then [""]
    else
      var rest := Split(s[1..], separator);
      if s[0] == separator then [""] + rest
      else [[s[0]] + rest[0]] + rest[1..]
  }

  function Join(parts: seq<string>, separator: char): string {
    if parts == [] then ""
    else if |parts| == 1 then parts[0]
    else parts[0] + [separator] + Join(parts[1..], separator)
  }

  predicate IsSpace(c: char) {
    var code := c as int;
    || 0x09 <= code <= 0x0d || code in {0x20, 0x85, 0xa0, 0x1680, 0x2028, 0x2029, 0x202f, 0x205f, 0x3000}
    || 0x2000 <= code <= 0x200a
  }

  /** Without the white space at both ends. */
  function TrimSpace(s: string): string
    decreases |s|
  {
    if s == "" then ""
    else if IsSpace(s[0]) then TrimSpace(s[1..])
    else if IsSpace(s[|s| - 1]) then TrimSpace(s[..|s| - 1])
    else s
  }

  function DigitValue(c: char): Option<nat> {
    if '0' <= c <= '9' then Some(c as nat - '0' as nat)
    else if 'a' <= c <= 'f' then Some(c as nat - 'a' as nat + 10)
    else if 'A' <= c <= 'F' then Some(c as nat - 'A' as nat + 10)
    else None
  }

  function HexValue(s: string): Option<nat> {
    if s == "" then Some(0)
    else
      var high, low := HexValue(s[..|s| - 1]), DigitValue(s[|s| - 1]);
      if high.None? || low.None? then None else Some(16 * high.value + low.value)
  }

  /** An unsigned hexadecimal number of at most 16 bits, in either case, with any leading zeros. */
  function ParseHex(s: string): (r: Option<nat>)
    ensures r.Some? ==> r.value < 0x1_0000
  {
    var value := HexValue(s);
    if s == "" || value.None? || value.value >= 0x1_0000 then None else value
  }

  function Digit(n: nat): char
    requires n < 16
  {
    "0123456789abcdef"[n]
  }

  function FormatHex(n: nat): string
    requires n < 0x1_0000
  {
    [Digit(n / 4096), Digit(n / 256 % 16), Digit(n / 16 % 16), Digit(n % 16)]
  }

  /** USBID.String. */
  function Print(id: UsbId): string
    requires Valid(id)
  {
    FormatHex(id.vendor) + [':'] + FormatHex(id.product)
  }

  function PrintEach(ids: seq<UsbId>): seq<string>
    requires AllValid(ids)
  {
    seq(|ids|, i requires 0 <= i < |ids| => Print(ids[i]))
  }

  function PrintAll(ids: seq<UsbId>): string
    requires AllValid(ids)
  {
    Join(PrintEach(ids), ',')
  }

  // ---------------------------------------------------------------- parsing

  function ParseOne(part: string): (r: Option<UsbId>)
    ensures r.Some? ==> Valid(r.value)
  {
    var fields := Split(TrimSpace(part), ':');
    if |fields| != 2 then None
    else
      var vendor, product := ParseHex(fields[0]), ParseHex(fields[1]);
      if vendor.None? || product.None? then None else Some(UsbId(vendor.value, product.value))
  }

  /** Every part must be an identity. */
  function ParseEach(parts: seq<string>): Option<seq<UsbId>> {
    if parts == [] then Some([])
    else
      var front, last := ParseEach(parts[..|parts| - 1]), ParseOne(parts[|parts| - 1]);
      if front.None? || last.None? then None else Some(front.value + [last.value])
  }

  /** Only the first occurrence of each identity, in order. */
  function Dedup(ids: seq<UsbId>): seq<UsbId> {
    if ids == [] then []
    else
      var front, last := Dedup(ids[..|ids| - 1]), ids[|ids| - 1];
      if last in ids[..|ids| - 1] then front else front + [last]
  }

  function Parse(value: string): Option<seq<UsbId>> {
    var each := ParseEach(Split(value, ','));
    if each.None? || Dedup(each.value) == [] then None else Some(Dedup(each.value))
  }

  lemma {:induction false} ParseEachFails(parts: seq<string>, n: nat)
    requires n <= |parts| && ParseEach(parts[..n]) == None
    ensures ParseEach(parts) == None
    decreases |parts| - n
  {
    if n < |parts| {
      assert parts[..n + 1][..n] == parts[..n];
      ParseEachFails(parts, n + 1);
    } else {
      assert parts[..n] == parts;
    }
  }

  lemma EachOfNone(parts: seq<string>)
    ensures ParseEach(parts[..0]) == Some([]) && Dedup([]) == []
  {
  }

  lemma EachNext(parts: seq<string>, i: nat)
    requires i < |parts| && ParseEach(parts[..i]).Some?
    ensures ParseEach(parts[..i + 1]) ==
      if ParseOne(parts[i]).Some? then Some(ParseEach(parts[..i]).value + [ParseOne(parts[i]).value]) else None
    ensures ParseOne(parts[i]) == None ==> ParseEach(parts) == None
  {
    assert parts[..i + 1][..i] == parts[..i];
    if ParseOne(parts[i]) == None {
      ParseEachFails(parts, i + 1);
    }
  }

  lemma DedupNext(ids: seq<UsbId>, id: UsbId)
    ensures Dedup(ids + [id]) == if id in ids then Dedup(ids) else Dedup(ids) + [id]
  {
    assert (ids + [id])[..|ids|] == ids;
  }

  method ParseUsbIds(value: string) returns (r: Option<seq<UsbId>>)
    ensures r == Parse(value)
  {
    hide ParseEach, Dedup, Split, TrimSpace, ParseHex;
    var parts := Split(value, ',');
    EachOfNone(parts);
    var ids: seq<UsbId> := [];
    var seen: set<UsbId> := {};
    ghost var each: seq<UsbId> := [];
    for i := 0 to |parts|
      invariant ParseEach(parts[..i]) == Some(each)
      invariant ids == Dedup(each)
      invariant forall id :: id in seen <==> id in each
    {
      EachNext(parts, i);
      var fields := Split(TrimSpace(parts[i]), ':');
      if |fields| != 2 {
        return None;
      }
      var vendor := ParseHex(fields[0]);
      if vendor.None? {
        return None;
      }
      var product := ParseHex(fields[1]);
      if product.None? {
        return None;
      }
      var id := UsbId(vendor.value, product.value);
      DedupNext(each, id);
      each := each + [id];
      if id !in seen {
        seen := seen + {id};
        ids := ids + [id];
      }
    }
    assert parts[..|parts|] == parts;
    if |ids| == 0 {
      return None;
    }
    return Some(ids);
  }

  // ---------------------------------------------------------------- splitting and joining

  lemma {:induction false} SplitPlain(s: string, separator: char)
    requires separator !in s
    ensures Split(s, separator) == [s]
  {
    if s != "" {
      SplitPlain(s[1..], separator);
      assert [s[0]] + s[1..] == s;
    }
  }

  lemma {:induction false} SplitFirst(s: string, separator: char, rest: string)
    requires separator !in s
    ensures Split(s + [separator] + rest, separator) == [s] + Split(rest, separator)
  {
    var whole := s + [separator] + rest;
    if s == "" {
      assert whole[1..] == rest;
      assert [""] + Split(rest, separator) == Split(whole, separator);
    } else {
      SplitFirst(s[1..], separator, rest);
      assert whole[1..] == s[1..] + [separator] + rest;
      assert [s[0]] + s[1..] == s;
    }
  }

  /** Splitting undoes joining of parts that do not hold the separator. */
  lemma {:induction false} SplitJoin(parts: seq<string>, separator: char)
    requires parts != [] && forall i | 0 <= i < |parts| :: separator !in parts[i]
    ensures Split(Join(parts, separator), separator) == parts
  {
    if |parts| == 1 {
      SplitPlain(parts[0], separator);
    } else {
      SplitJoin(parts[1..], separator);
      SplitFirst(parts[0], separator, Join(parts[1..], separator));
    }
  }

  /** Joining undoes splitting, always. */
  lemma {:induction false} JoinSplit(s: string, separator: char)
    ensures Join(Split(s, separator), separator) == s
  {
    if s != "" {
      JoinSplit(s[1..], separator);
      var rest := Split(s[1..], separator);
      if s[0] == separator {
        assert ([""] + rest)[1..] == rest;
      } else {
        var parts := [[s[0]] + rest[0]] + rest[1..];
        assert parts[1..] == rest[1..];
        if |rest| == 1 {
          assert Join(parts, separator) == [s[0]] + rest[0];
        } else {
          assert Join(parts, separator) == [s[0]] + Join(rest, separator);
        }
      }
    }
  }

  // ---------------------------------------------------------------- one identity

  lemma FourDigits(a: nat, b: nat, c: nat, d: nat)
    requires a < 16 && b < 16 && c < 16 && d < 16
    ensures HexValue([Digit(a), Digit(b), Digit(c), Digit(d)]) == Some(4096 * a + 256 * b + 16 * c + d)
  {
    hide Digit, DigitValue;
    DigitRoundTrip(a); DigitRoundTrip(b); DigitRoundTrip(c); DigitRoundTrip(d);
    var s := [Digit(a), Digit(b), Digit(c), Digit(d)];
    assert s[..3] == [s[0], s[1], s[2]] && s[..3][..2] == [s[0], s[1]] && s[..3][..2][..1] == [s[0]];
    assert HexValue(s[..3][..2][..1]) == Some(a);
    assert HexValue(s[..3][..2]) == Some(16 * a + b);
    assert HexValue(s[..3]) == Some(16 * (16 * a + b) + c);
  }

  lemma Places(n: nat)
    requires n < 0x1_0000
    ensures n == 4096 * (n / 4096) + 256 * (n / 256 % 16) + 16 * (n / 16 % 16) + n % 16 && n / 4096 < 16
  {
    assert n / 256 == n / 16 / 16 && n / 4096 == n / 256 / 16;
  }

  /** Printing four digits and reading them back. */
  lemma HexRoundTrip(n: nat)
    requires n < 0x1_0000
    ensures ParseHex(FormatHex(n)) == Some(n)
  {
    hide Digit, HexValue;
    Places(n);
    FourDigits(n / 4096, n / 256 % 16, n / 16 % 16, n % 16);
  }

  lemma DigitRoundTrip(n: nat)
    requires n < 16
    ensures DigitValue(Digit(n)) == Some(n)
    ensures !IsSpace(Digit(n)) && Digit(n) != ',' && Digit(n) != ':'
  {
  }

  lemma HexText(n: nat)
    requires n < 0x1_0000
    ensures forall c | c in FormatHex(n) :: !IsSpace(c) && c != ',' && c != ':'
  {
    DigitRoundTrip(n / 4096); DigitRoundTrip(n / 256 % 16); DigitRoundTrip(n / 16 % 16); DigitRoundTrip(n % 16);
  }

  /** The printed form: four lower-case hexadecimal digits, a colon, and four more. */
  lemma PrintForm(id: UsbId)
    requires Valid(id)
    ensures |Print(id)| == 9 && Print(id)[4] == ':'
    ensures forall i | 0 <= i < 9 && i != 4 :: '0' <= Print(id)[i] <= '9' || 'a' <= Print(id)[i] <= 'f'
  {
    LowerDigits(id.vendor);
    LowerDigits(id.product);
    var v, p := FormatHex(id.vendor), FormatHex(id.product);
    forall i | 0 <= i < 9 && i != 4 ensures '0' <= Print(id)[i] <= '9' || 'a' <= Print(id)[i] <= 'f' {
      assert Print(id)[i] == if i < 4 then v[i] else p[i - 5];
    }
  }

  lemma LowerDigits(n: nat)
    requires n < 0x1_0000
    ensures forall i | 0 <= i < 4 :: '0' <= FormatHex(n)[i] <= '9' || 'a' <= FormatHex(n)[i] <= 'f'
  {
  }

  lemma OneRoundTrip(id: UsbId)
    requires Valid(id)
    ensures ParseOne(Print(id)) == Some(id) && ',' !in Print(id)
  {
    var v, p := FormatHex(id.vendor), FormatHex(id.product);
    HexText(id.vendor);
    HexText(id.product);
    HexRoundTrip(id.vendor);
    HexRoundTrip(id.product);
    assert Print(id)[0] == v[0] && Print(id)[8] == p[3];
    SplitFirst(v, ':', p);
    SplitPlain(p, ':');
  }

  // ---------------------------------------------------------------- what is accepted

  predicate AllSpace(s: string) {
    forall i | 0 <= i < |s| :: IsSpace(s[i])
  }

  lemma {:induction false} TrimFront(space: string, s: string)
    requires AllSpace(space)
    ensures TrimSpace(space + s) == TrimSpace(s)
  {
    if space == "" {
      assert space + s == s;
    } else {
      assert (space + s)[0] == space[0] && (space + s)[1..] == space[1..] + s;
      TrimFront(space[1..], s);
    }
  }

  lemma {:induction false} TrimBack(s: string, space: string)
    requires AllSpace(space)
    ensures TrimSpace(s + space) == TrimSpace(s)
    decreases |s| + |space|
  {
    if space == "" {
      assert s + space == s;
    } else if s == "" {
      assert s + space == space + "";
      TrimFront(space, "");
    } else {
      var all := s + space;
      assert all[0] == s[0] && all[|all| - 1] == space[|space| - 1];
      if IsSpace(s[0]) {
        assert all[1..] == s[1..] + space;
        TrimBack(s[1..], space);
      } else {
        assert all[..|all| - 1] == s + space[..|space| - 1];
        TrimBack(s, space[..|space| - 1]);
      }
    }
  }

  /** White space is what Unicode gives that property. */
  lemma SpaceTable(c: char)
    ensures IsSpace(c) <==>
      c as int in {9, 10, 11, 12, 13, 32, 133, 160, 5760, 8192, 8193, 8194, 8195, 8196, 8197, 8198, 8199, 8200, 8201,
                   8202, 8232, 8233, 8239, 8287, 12288}
  {
  }

  /** White space around an identity is ignored. */
  lemma SpaceIsIgnored(before: string, part: string, after: string)
    requires AllSpace(before) && AllSpace(after)
    ensures ParseOne(before + part + after) == ParseOne(part)
  {
    TrimBack(before + part, after);
    TrimFront(before, part);
  }

  /** And nothing else is dropped: what is left begins and ends with other characters. */
  lemma {:induction false} TrimDropsSpaceOnly(s: string) returns (before: string, after: string)
    ensures AllSpace(before) && AllSpace(after) && s == before + TrimSpace(s) + after
    ensures TrimSpace(s) != "" ==> !IsSpace(TrimSpace(s)[0]) && !IsSpace(TrimSpace(s)[|TrimSpace(s)| - 1])
    decreases |s|
  {
    hide IsSpace;
    before, after := "", "";
    if s != "" {
      if IsSpace(s[0]) {
        var inner;
        inner, after := TrimDropsSpaceOnly(s[1..]);
        before := [s[0]] + inner;
        assert s == [s[0]] + s[1..] == before + TrimSpace(s) + after;
      } else if IsSpace(s[|s| - 1]) {
        var inner;
        before, inner := TrimDropsSpaceOnly(s[..|s| - 1]);
        after := inner + [s[|s| - 1]];
        assert s == s[..|s| - 1] + [s[|s| - 1]] == before + TrimSpace(s) + after;
      }
    }
  }

  predicate IsHexDigit(c: char) {
    '0' <= c <= '9' || 'a' <= c <= 'f' || 'A' <= c <= 'F'
  }

  /** A number is accepted if and only if it has a digit, only hexadecimal ones, and fits into 16 bits;
      zeros in front do not matter. */
  lemma {:induction false} HexAccepted(s: string)
    ensures HexValue(s).Some? <==> forall i | 0 <= i < |s| :: IsHexDigit(s[i])
    ensures ParseHex(s).Some? <==> s != "" && HexValue(s).Some? && HexValue(s).value <= 65535
    ensures HexValue("0" + s) == HexValue(s)
  {
    if s == "" {
      assert ("0" + s)[..0] == "";
    } else {
      var n := |s| - 1;
      HexAccepted(s[..n]);
      assert ("0" + s)[..n + 1] == "0" + s[..n] && ("0" + s)[n + 1] == s[n];
      assert s == s[..n] + [s[n]];
      if forall i | 0 <= i < n :: IsHexDigit(s[..n][i]) {
        assert forall i | 0 <= i < n :: s[i] == s[..n][i];
      } else {
        var i :| 0 <= i < n && !IsHexDigit(s[..n][i]);
        assert s[i] == s[..n][i];
      }
    }
  }

  /** A part is accepted, with this meaning, if and only if it is two such numbers around a single colon,
      up to white space. */
  lemma OneExactly(part: string, id: UsbId)
    ensures ParseOne(part) == Some(id) <==>
      exists vendor, product :: TrimSpace(part) == vendor + [':'] + product && IsPair(vendor, product, id)
  {
    var trimmed := TrimSpace(part);
    var fields := Split(trimmed, ':');
    if ParseOne(part) == Some(id) {
      JoinSplit(trimmed, ':');
      PiecesArePlain(trimmed, ':');
      assert fields == [fields[0], fields[1]] && fields[1..] == [fields[1]];
      assert trimmed == fields[0] + [':'] + fields[1] && IsPair(fields[0], fields[1], id);
    }
    forall vendor, product | trimmed == vendor + [':'] + product && IsPair(vendor, product, id)
      ensures ParseOne(part) == Some(id)
    {
      SplitFirst(vendor, ':', product);
      SplitPlain(product, ':');
    }
  }

  predicate IsPair(vendor: string, product: string, id: UsbId) {
    ':' !in vendor && ':' !in product && ParseHex(vendor) == Some(id.vendor) && ParseHex(product) == Some(id.product)
  }

  lemma {:induction false} PiecesArePlain(s: string, separator: char)
    ensures forall i | 0 <= i < |Split(s, separator)| :: separator !in Split(s, separator)[i]
  {
    if s != "" {
      PiecesArePlain(s[1..], separator);
    }
  }

  // ---------------------------------------------------------------- lists of identities

  lemma {:induction false} EachRoundTrip(ids: seq<UsbId>)
    requires AllValid(ids)
    ensures ParseEach(PrintEach(ids)) == Some(ids)
  {
    if ids != [] {
      var front := ids[..|ids| - 1];
      EachRoundTrip(front);
      OneRoundTrip(ids[|ids| - 1]);
      assert PrintEach(ids)[..|ids| - 1] == PrintEach(front);
      assert front + [ids[|ids| - 1]] == ids;
    }
  }

  predicate Distinct(ids: seq<UsbId>) {
    forall i, j | 0 <= i < j < |ids| :: ids[i] != ids[j]
  }

  /** Where an identity occurs first. */
  function First(ids: seq<UsbId>, id: UsbId): (k: nat)
    requires id in ids
    ensures k < |ids| && ids[k] == id && id !in ids[..k]
  {
    if id in ids[..|ids| - 1] then
      assert forall k | 0 <= k < |ids| - 1 :: ids[..|ids| - 1][..k] == ids[..k];
      First(ids[..|ids| - 1], id)
    else |ids| - 1
  }

  /** Dropping later duplicates keeps every identity, once, in the order of first occurrence. */
  lemma {:induction false} DedupMeaning(ids: seq<UsbId>)
    ensures Distinct(Dedup(ids))
    ensures forall id :: id in Dedup(ids) <==> id in ids
    ensures InOrderOf(ids, Dedup(ids))
  {
    if ids != [] {
      var front, last := ids[..|ids| - 1], ids[|ids| - 1];
      DedupMeaning(front);
      assert front + [last] == ids;
      DedupNext(front, last);
      hide Dedup, InOrderOf;
      KeepsOrder(front, last, Dedup(front));
    }
  }

  /** These are some of the identities, in the order of first occurrence. */
  predicate InOrderOf(ids: seq<UsbId>, some: seq<UsbId>) {
    && (forall i | 0 <= i < |some| :: some[i] in ids)
    && forall i, j | 0 <= i < j < |some| :: First(ids, some[i]) < First(ids, some[j])
  }

  lemma FirstKept(front: seq<UsbId>, last: UsbId, id: UsbId)
    ensures id in front ==> First(front + [last], id) == First(front, id)
    ensures last !in front ==> First(front + [last], last) == |front|
  {
    assert (front + [last])[..|front|] == front;
  }

  lemma KeepsOrder(front: seq<UsbId>, last: UsbId, some: seq<UsbId>)
    requires InOrderOf(front, some)
    ensures InOrderOf(front + [last], some)
    ensures last !in front ==> InOrderOf(front + [last], some + [last])
  {
    hide First;
    forall i | 0 <= i < |some|
      ensures some[i] in front + [last] && First(front + [last], some[i]) == First(front, some[i]) < |front|
    {
      FirstKept(front, last, some[i]);
    }
    FirstKept(front, last, last);
  }

  lemma {:induction false} DedupDistinct(ids: seq<UsbId>)
    requires Distinct(ids)
    ensures Dedup(ids) == ids
  {
    if ids != [] {
      DedupDistinct(ids[..|ids| - 1]);
      assert ids[..|ids| - 1] + [ids[|ids| - 1]] == ids;
    }
  }

  lemma {:induction false} EachValid(parts: seq<string>)
    requires ParseEach(parts).Some?
    ensures AllValid(ParseEach(parts).value) && |ParseEach(parts).value| == |parts|
  {
    if parts != [] {
      EachValid(parts[..|parts| - 1]);
    }
  }

  /** The list of parsed identities is never empty: the final check of the parser cannot fail, and
      it fails exactly when one of the parts does. */
  lemma FailsOnlyOnAPart(value: string)
    ensures Parse(value) == None <==> ParseEach(Split(value, ',')) == None
  {
    var parts := Split(value, ',');
    if ParseEach(parts).Some? {
      EachValid(parts);
      DedupMeaning(ParseEach(parts).value);
      assert ParseEach(parts).value[0] in Dedup(ParseEach(parts).value);
    }
  }

  /** Printing identities and parsing the text gives them back, later duplicates dropped. */
  lemma PrintParse(ids: seq<UsbId>)
    requires ids != [] && AllValid(ids)
    ensures Parse(PrintAll(ids)) == Some(Dedup(ids))
  {
    forall i | 0 <= i < |ids| ensures ',' !in PrintEach(ids)[i] {
      OneRoundTrip(ids[i]);
    }
    SplitJoin(PrintEach(ids), ',');
    EachRoundTrip(ids);
    FailsOnlyOnAPart(PrintAll(ids));
  }

  /** Whatever text was accepted, its identities are valid, present and distinct, and their printed
      form is a text of the same meaning. */
  lemma ParsePrintParse(value: string)
    requires Parse(value).Some?
    ensures var ids := Parse(value).value;
      ids != [] && AllValid(ids) && Distinct(ids) && Parse(PrintAll(ids)) == Some(ids)
  {
    var each := ParseEach(Split(value, ',')).value;
    var ids := Parse(value).value;
    EachValid(Split(value, ','));
    DedupMeaning(each);
    forall i | 0 <= i < |ids| ensures Valid(ids[i]) {
      assert ids[i] in each;
    }
    DedupDistinct(ids);
    PrintParse(ids);
  }

  // ---------------------------------------------------------------- upper case

  function Upper(c: char): char {
    if 'a' <= c <= 'z' then c - 'a' + 'A' else c
  }

  function UpperAll(s: string): string {
    seq(|s|, i requires 0 <= i < |s| => Upper(s[i]))
  }

  function UpperEach(parts: seq<string>): seq<string> {
    seq(|parts|, i requires 0 <= i < |parts| => UpperAll(parts[i]))
  }

  /** One step of splitting. */
  lemma SplitStep(s: string, separator: char)
    requires s != ""
    ensures var rest := Split(s[1..], separator);
      Split(s, separator) == if s[0] == separator then [""] + rest else [[s[0]] + rest[0]] + rest[1..]
  {
  }

  lemma UpperStep(s: string)
    requires s != ""
    ensures UpperAll(s) != "" && UpperAll(s)[0] == Upper(s[0]) && UpperAll(s)[1..] == UpperAll(s[1..])
  {
  }

  lemma UpperCons(c: char, s: string)
    ensures UpperAll([c] + s) == [Upper(c)] + UpperAll(s)
  {
  }

  lemma UpperEachCons(part: string, parts: seq<string>)
    ensures UpperEach([part] + parts) == [UpperAll(part)] + UpperEach(parts)
  {
  }

  lemma UpperEmpty()
    ensures UpperAll("") == "" && UpperEach([""]) == [""]
  {
  }

  lemma {:induction false} SplitUpper(s: string, separator: char)
    requires separator == ',' || separator == ':'
    ensures Split(UpperAll(s), separator) == UpperEach(Split(s, separator))
  {
    hide UpperAll, UpperEach;
    UpperEmpty();
    if s != "" {
      var rest := Split(s[1..], separator);
      var first, others := rest[0], rest[1..];
      SplitUpper(s[1..], separator);
      SplitStep(s, separator);
      UpperStep(s);
      SplitStep(UpperAll(s), separator);
      assert rest == [first] + others;
      UpperEachCons(first, others);
      UpperEachCons("", rest);
      UpperEachCons([s[0]] + first, others);
      UpperCons(s[0], first);
      hide Split;
    }
  }

  lemma UpperSpace(c: char)
    ensures IsSpace(Upper(c)) <==> IsSpace(c)
  {
  }

  lemma {:induction false} TrimUpper(s: string)
    ensures TrimSpace(UpperAll(s)) == UpperAll(TrimSpace(s))
    decreases |s|
  {
    if s != "" {
      var n := |s|;
      UpperSpace(s[0]);
      UpperSpace(s[n - 1]);
      assert UpperAll(s)[1..] == UpperAll(s[1..]) && UpperAll(s)[..n - 1] == UpperAll(s[..n - 1]);
      if IsSpace(s[0]) {
        TrimUpper(s[1..]);
      } else if IsSpace(s[n - 1]) {
        TrimUpper(s[..n - 1]);
      }
    }
  }

  lemma {:induction false} HexUpper(s: string)
    ensures HexValue(UpperAll(s)) == HexValue(s)
  {
    if s != "" {
      HexUpper(s[..|s| - 1]);
      assert UpperAll(s)[..|s| - 1] == UpperAll(s[..|s| - 1]);
      UpperDigit(s[|s| - 1]);
    }
  }

  lemma UpperDigit(c: char)
    ensures DigitValue(Upper(c)) == DigitValue(c)
  {
  }

  lemma OneUpper(part: string)
    ensures ParseOne(UpperAll(part)) == ParseOne(part)
  {
    var fields := Split(TrimSpace(part), ':');
    TrimUpper(part);
    SplitUpper(TrimSpace(part), ':');
    if |fields| == 2 {
      HexUpper(fields[0]);
      HexUpper(fields[1]);
    }
  }

  lemma {:induction false} EachUpper(parts: seq<string>)
    ensures ParseEach(UpperEach(parts)) == ParseEach(parts)
  {
    if parts != [] {
      EachUpper(parts[..|parts| - 1]);
      OneUpper(parts[|parts| - 1]);
      assert UpperEach(parts)[..|parts| - 1] == UpperEach(parts[..|parts| - 1]);
    }
  }

  /** The parser's own message asks for lower case, but case is never looked at. */
  lemma CaseIsIgnored(value: string)
    ensures Parse(UpperAll(value)) == Parse(value)
  {
    SplitUpper(value, ',');
    EachUpper(Split(value, ','));
  }
}
