/** The serial-number generator of `bulk_import_inventory`: a three-character prefix
    taken from the component name, the highest numeric suffix already used in the
    category, and a run of fresh serials above it. */
module Serials {
  import opened Options
  import opened Text
  import opened Store

  function Min(a: int, b: int): int { if a <= b then a else b }

  /** `component_name[:3].upper().replace(' ', '')`, right-padded with `X` to three characters. */
  function SerialPrefix(name: string): (p: string)
    ensures |p| == 3
    ensures forall i :: 0 <= i < 3 ==> p[i] != ' ' && !IsLowerAscii(p[i])
    ensures NoLowerAscii(p)
    ensures |name| >= 3 && ' ' !in name[..3] ==> p == Upper(name[..3])
    ensures |name| < 3 && ' ' !in name ==> p == Upper(name) + seq(3 - |name|, _ => 'X')
    ensures var h := RemoveChar(Upper(name[..Min(3, |name|)]), ' ');
      |h| <= 3 && p[..|h|] == h && forall i :: |h| <= i < 3 ==> p[i] == 'X'
  {
    var head := RemoveChar(Upper(name[..Min(3, |name|)]), ' ');
    if |head| < 3 then head + seq(3 - |head|, _ => 'X') else head
  }

  /** Where the generator looks for suffixes already in use. `PerCategory` is the source's
      rule: only items of the row's category, with a case-sensitive prefix test.
      `AcrossStore` scans every item and compares upper-cased serials, as serial lookup does. */
  datatype Numbering = PerCategory | AcrossStore

  predicate NoLowerAscii(p: string) {
    forall i :: 0 <= i < |p| ==> !IsLowerAscii(p[i])
  }

  /** The numeric suffix an existing item contributes to the scan, if any: its serial must
      start with the prefix; a suffix `int()` rejects is skipped. */
  function SuffixValue(item: Item, numbering: Numbering, inventoryId: int, prefix: string): Option<int> {
    match numbering
    case PerCategory =>
      if item.inventoryId == inventoryId && prefix <= item.serial
      then ParseInt(item.serial[|prefix|..])
      else None
    case AcrossStore =>
      var key := Upper(item.serial);
      if prefix <= key then ParseInt(key[|prefix|..]) else None
  }

  /** `max_num`: the highest suffix in use, 0 when there is none. */
  function MaxSuffix(items: seq<Item>, numbering: Numbering, inventoryId: int, prefix: string): (m: nat)
    ensures forall k :: 0 <= k < |items| && SuffixValue(items[k], numbering, inventoryId, prefix).Some? ==>
      SuffixValue(items[k], numbering, inventoryId, prefix).value <= m
    ensures m == 0 || exists k :: 0 <= k < |items| && SuffixValue(items[k], numbering, inventoryId, prefix) == Some(m)
  {
    if |items| == 0 then 0
    else
      var rest := MaxSuffix(items[1..], numbering, inventoryId, prefix);
      assert forall k :: 1 <= k < |items| ==> items[k] == items[1..][k - 1];
      match SuffixValue(items[0], numbering, inventoryId, prefix)
      case Some(v) => if v > rest then v else rest
      case None => rest
  }

  /** The `n` serials emitted above `base`: `prefix + f"{base + i + 1:03d}"` for `i` in `range(n)`. */
  function NewSerials(prefix: string, base: nat, n: nat): (r: seq<string>)
    ensures |r| == n
  {
    seq(n, i requires 0 <= i < n => prefix + Format03(base + i + 1))
  }

  /** Every generated serial starts with the prefix and its suffix reads back as `base + i + 1`:
      the emitted numbers climb by one from just above the highest one in use. */
  lemma NewSerialSuffix(prefix: string, base: nat, n: nat, i: nat)
    requires i < n
    ensures prefix <= NewSerials(prefix, base, n)[i]
    ensures ParseInt(NewSerials(prefix, base, n)[i][|prefix|..]) == Some(base + i + 1)
  {
    var s := NewSerials(prefix, base, n)[i];
    assert s == prefix + Format03(base + i + 1);
    assert s[|prefix|..] == Format03(base + i + 1);
    ParseFormat03(base + i + 1);
  }

  /** The generated serials are pairwise distinct. */
  lemma NewSerialsDistinct(prefix: string, base: nat, n: nat, i: nat, j: nat)
    requires i < n && j < n && i != j
    ensures NewSerials(prefix, base, n)[i] != NewSerials(prefix, base, n)[j]
  {
    NewSerialSuffix(prefix, base, n, i);
    NewSerialSuffix(prefix, base, n, j);
  }

  /** A generated serial is already in upper case. */
  lemma NewSerialUpper(prefix: string, base: nat, n: nat, i: nat)
    requires i < n && NoLowerAscii(prefix)
    ensures Upper(NewSerials(prefix, base, n)[i]) == NewSerials(prefix, base, n)[i]
  {
    var s := NewSerials(prefix, base, n)[i];
    var d := Format03(base + i + 1);
    assert s == prefix + d;
    forall j | 0 <= j < |s|
      ensures Upper(s)[j] == s[j]
    {
      if j >= |prefix| {
        assert s[j] == d[j - |prefix|];
      }
    }
  }

  /** Scanning the whole store, no generated serial equals any existing serial, ignoring case. */
  lemma NewSerialsFreshAcrossStore(items: seq<Item>, inventoryId: int, prefix: string, n: nat, i: nat, k: nat)
    requires i < n && k < |items|
    ensures Upper(items[k].serial) != NewSerials(prefix, MaxSuffix(items, AcrossStore, inventoryId, prefix), n)[i]
  {
    var base := MaxSuffix(items, AcrossStore, inventoryId, prefix);
    NewSerialSuffix(prefix, base, n, i);
    var made := NewSerials(prefix, base, n)[i];
    var suffix := SuffixValue(items[k], AcrossStore, inventoryId, prefix);
    assert suffix != Some(base + i + 1);
    assert Upper(items[k].serial) == made ==> suffix == Some(base + i + 1);
  }

  /** Two generated serials differ even ignoring case. */
  lemma NewSerialsDistinctIgnoringCase(prefix: string, base: nat, n: nat, i: nat, j: nat)
    requires i < n && j < n && i != j && NoLowerAscii(prefix)
    ensures Upper(NewSerials(prefix, base, n)[i]) != Upper(NewSerials(prefix, base, n)[j])
  {
    NewSerialsDistinct(prefix, base, n, i, j);
    NewSerialUpper(prefix, base, n, i);
    NewSerialUpper(prefix, base, n, j);
  }

  /** With the store-wide scan, a generated serial differs ignoring case from every existing one. */
  lemma NewSerialDiffersIgnoringCase(items: seq<Item>, inventoryId: int, prefix: string, n: nat, i: nat, k: nat)
    requires i < n && k < |items| && NoLowerAscii(prefix)
    ensures Upper(items[k].serial) != Upper(NewSerials(prefix, MaxSuffix(items, AcrossStore, inventoryId, prefix), n)[i])
  {
    NewSerialsFreshAcrossStore(items, inventoryId, prefix, n, i, k);
    NewSerialUpper(prefix, MaxSuffix(items, AcrossStore, inventoryId, prefix), n, i);
  }

  /** Under either rule, no generated serial is already used by an item of the same category. */
  lemma NewSerialsFresh(items: seq<Item>, numbering: Numbering, inventoryId: int, prefix: string, n: nat, i: nat, k: nat)
    requires i < n && k < |items| && items[k].inventoryId == inventoryId && NoLowerAscii(prefix)
    ensures items[k].serial != NewSerials(prefix, MaxSuffix(items, numbering, inventoryId, prefix), n)[i]
  {
    var base := MaxSuffix(items, numbering, inventoryId, prefix);
    var made := NewSerials(prefix, base, n)[i];
    match numbering {
      case PerCategory =>
        NewSerialSuffix(prefix, base, n, i);
        var suffix := SuffixValue(items[k], numbering, inventoryId, prefix);
        assert suffix != Some(base + i + 1);
        assert items[k].serial == made ==> suffix == Some(base + i + 1);
      case AcrossStore =>
        NewSerialsFreshAcrossStore(items, inventoryId, prefix, n, i, k);
        NewSerialUpper(prefix, base, n, i);
    }
  }

  lemma Format03Single(n: nat)
    requires n < 10
    ensures Format03(n) == ['0', '0', DigitChar(n)]
  {
    assert Decimal(n) == [DigitChar(n)];
    assert Zeros(2) == ['0', '0'];
  }

  lemma ArduinoPrefix()
    ensures SerialPrefix("Arduino") == "ARD"
  {
    assert "Arduino"[..3] == "Ard";
    assert Upper("Ard") == "ARD";
  }

  /** The generator's own note: a long name gives its first three letters upper-cased. */
  lemma RaspberryPrefix()
    ensures SerialPrefix("Raspberry Pi") == "RAS"
  {
    assert "Raspberry Pi"[..3] == "Ras";
    assert Upper("Ras") == "RAS";
  }

  /** The generator's own note: a short name is padded with `X`. */
  lemma PiPrefix()
    ensures SerialPrefix("Pi") == "PIX"
  {
    assert "Pi"[..2] == "Pi";
    assert Upper("Pi") == "PI";
  }

  /** A space inside the first three characters is dropped before the padding. */
  lemma DcMotorPrefix()
    ensures SerialPrefix("DC Motor") == "DCX"
  {
    var head := Upper("DC Motor"[..3]);
    assert head == "DC ";
    var h := RemoveChar(head, ' ');
    assert h == "DC" by {
      assert head[1..] == "C " && head[1..][1..] == " ";
      assert RemoveChar(" ", ' ') == "";
      assert RemoveChar("C ", ' ') == "C";
    }
  }

  /** The documented example: when the Arduino category (id 1) holds exactly ARD001..ARD003,
      importing five more yields ARD004..ARD008. */
  lemma ArduinoExample(items: seq<Item>)
    requires |items| == 3
    requires forall k :: 0 <= k < 3 ==>
      items[k].inventoryId == 1 && items[k].serial == "ARD" + Format03(k + 1)
    ensures MaxSuffix(items, PerCategory, 1, SerialPrefix("Arduino")) == 3
    ensures NewSerials(SerialPrefix("Arduino"), MaxSuffix(items, PerCategory, 1, SerialPrefix("Arduino")), 5)
         == ["ARD004", "ARD005", "ARD006", "ARD007", "ARD008"]
  {
    ArduinoPrefix();
    var m := MaxSuffix(items, PerCategory, 1, "ARD");
    forall k | 0 <= k < 3
      ensures SuffixValue(items[k], PerCategory, 1, "ARD") == Some(k + 1)
    {
      ParseFormat03(k + 1);
      assert items[k].serial[3..] == Format03(k + 1);
    }
    assert SuffixValue(items[2], PerCategory, 1, "ARD") == Some(3);
    ArduinoNew();
  }

  lemma ArduinoNew()
    ensures NewSerials("ARD", 3, 5) == ["ARD004", "ARD005", "ARD006", "ARD007", "ARD008"]
  {
    var r := NewSerials("ARD", 3, 5);
    Format03Single(4);
    Format03Single(5);
    Format03Single(6);
    Format03Single(7);
    Format03Single(8);
    assert r[0] == "ARD004";
    assert r[1] == "ARD005";
    assert r[2] == "ARD006";
    assert r[3] == "ARD007";
    assert r[4] == "ARD008";
  }

  lemma ArduinoFirstTwo()
    ensures NewSerials("ARD", 0, 1) == ["ARD001"]
    ensures NewSerials("ARD", 1, 1) == ["ARD002"]
  {
    Format03Single(1);
    Format03Single(2);
    assert NewSerials("ARD", 0, 1)[0] == "ARD001";
    assert NewSerials("ARD", 1, 1)[0] == "ARD002";
  }
}
