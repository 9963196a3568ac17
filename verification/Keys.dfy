/**
 The storage keys of the key-value provider: the namespace of a database name,
 its head key and its page keys. The main result is that keys of different
 databases, pages or slots never coincide.
 */
module Keys {
  import opened Wrappers
  import opened Bytes

  const MAX_PAGES: nat := U32_MAX

  datatype KeyError = EmptyName | InvalidAddress

  /** One lower-case hexadecimal digit. */
  function HexDigit(n: nat): char
    requires n < 16
  {
    if n < 10 then '0' + n as char else 'a' + (n - 10) as char
  }

  /** Two hexadecimal digits per byte, high nibble first. */
  function Hex(name: seq<byte>): (text: string)
    ensures '/' !in text
  {
    if name == [] then ""
    else [HexDigit(name[0] / 16), HexDigit(name[0] % 16)] + Hex(name[1..])
  }

  function Namespace(name: seq<byte>): Result<string, KeyError> {
    if name == [] then Err(EmptyName) else Ok(NamespaceText(name))
  }

  function NamespaceText(name: seq<byte>): string {
    "wasm-dbms/" + Hex(name)
  }

  function DecimalDigit(n: nat): char
    requires n < 10
  {
    '0' + n as char
  }

  function DigitValue(c: char): int {
    c as int - '0' as int
  }

  predicate IsDigit(c: char) {
    '0' <= c <= '9'
  }

  predicate AllDigits(text: string) {
    forall i | 0 <= i < |text| :: IsDigit(text[i])
  }

  /** The shortest decimal spelling of `n`. */
  function Decimal(n: nat): (text: string)
    ensures text != "" && AllDigits(text)
  {
    if n < 10 then [DecimalDigit(n)] else Decimal(n / 10) + [DecimalDigit(n % 10)]
  }

  /** The number spelled by `text`, leading zeros allowed. */
  function ParseDecimal(text: string): (n: nat)
    requires AllDigits(text)
  {
    if text == "" then 0
    else ParseDecimal(text[..|text| - 1]) * 10 + DigitValue(text[|text| - 1])
  }

  lemma {:induction false} ParseOfDecimal(n: nat)
    ensures ParseDecimal(Decimal(n)) == n
  {
    var text := Decimal(n);
    if n >= 10 {
      ParseOfDecimal(n / 10);
      assert text[..|text| - 1] == Decimal(n / 10);
    } else {
      assert text[..0] == "";
    }
  }

  function HeadKey(namespace: string): string {
    namespace + "/head"
  }

  function PageKeyText(namespace: string, page: nat, slot: nat): string {
    namespace + "/page/" + Decimal(page) + "/" + Decimal(slot)
  }

  function PageKey(namespace: string, page: nat, slot: nat): Result<string, KeyError> {
    if slot > 1 || page > MAX_PAGES then Err(InvalidAddress)
    else Ok(PageKeyText(namespace, page, slot))
  }

  /** The text of the keys: lower-case hexadecimal names, decimal page and slot numbers. */
  lemma KeyFormat()
    ensures HeadKey(NamespaceText([0x0A, 0xF9])) == "wasm-dbms/0af9/head"
    ensures PageKeyText(NamespaceText([0x2F]), 120, 1) == "wasm-dbms/2f/page/120/1"
  {
    assert [0x0A, 0xF9][1..] == [0xF9] && [0xF9][1..] == [] && [0x2F][1..] == [];
    assert Hex([0xF9]) == "f9" && Hex([0x0A, 0xF9]) == "0af9" && Hex([0x2F]) == "2f";
    assert Decimal(1) == "1" && Decimal(12) == "12" && Decimal(120) == "120";
  }

  /** Whether `key` belongs to the database called `name`. */
  ghost predicate OwnedBy(name: seq<byte>, key: string) {
    || key == HeadKey(NamespaceText(name))
    || exists page: nat, slot: nat :: key == PageKeyText(NamespaceText(name), page, slot)
  }

  // Two texts that agree up to and after their first slash are equal on both sides of it.
  lemma SplitAtSlash(a: string, x: string, b: string, y: string)
    requires '/' !in a && '/' !in b
    requires a + "/" + x == b + "/" + y
    ensures a == b && x == y
  {
    var left, right := a + "/" + x, b + "/" + y;
    assert left[|a|] == '/' && right[|b|] == '/';
    if |a| < |b| {
      assert false;
    }
    if |b| < |a| {
      assert false;
    }
    assert left[..|a|] == a && right[..|b|] == b;
    assert left[|a| + 1..] == x && right[|b| + 1..] == y;
  }

  lemma HexDigitInjective(m: nat, n: nat)
    requires m < 16 && n < 16 && HexDigit(m) == HexDigit(n)
    ensures m == n
  {
  }

  lemma {:induction false} HexInjective(a: seq<byte>, b: seq<byte>)
    requires Hex(a) == Hex(b)
    ensures a == b
  {
    if a != [] && b != [] {
      assert Hex(a)[0] == HexDigit(a[0] / 16) && Hex(b)[0] == HexDigit(b[0] / 16);
      HexDigitInjective(a[0] / 16, b[0] / 16);
      assert Hex(a)[1] == HexDigit(a[0] % 16) && Hex(b)[1] == HexDigit(b[0] % 16);
      HexDigitInjective(a[0] % 16, b[0] % 16);
      assert Hex(a)[2..] == Hex(a[1..]) && Hex(b)[2..] == Hex(b[1..]);
      HexInjective(a[1..], b[1..]);
      assert a == [a[0]] + a[1..] && b == [b[0]] + b[1..];
    }
  }

  lemma NamespacePrefix(a: seq<byte>, x: string, b: seq<byte>, y: string)
    requires NamespaceText(a) + "/" + x == NamespaceText(b) + "/" + y
    ensures a == b && x == y
  {
    var left, right := NamespaceText(a) + "/" + x, NamespaceText(b) + "/" + y;
    assert left[10..] == Hex(a) + "/" + x;
    assert right[10..] == Hex(b) + "/" + y;
    SplitAtSlash(Hex(a), x, Hex(b), y);
    HexInjective(a, b);
  }

  lemma PageKeySplit(name: seq<byte>, page: nat, slot: nat)
    ensures PageKeyText(NamespaceText(name), page, slot)
         == NamespaceText(name) + "/" + ("page" + "/" + (Decimal(page) + "/" + Decimal(slot)))
  {
  }

  lemma HeadKeySplit(name: seq<byte>)
    ensures HeadKey(NamespaceText(name)) == NamespaceText(name) + "/" + "head"
  {
  }

  /** Head keys of different databases differ. */
  lemma HeadKeysInjective(a: seq<byte>, b: seq<byte>)
    requires HeadKey(NamespaceText(a)) == HeadKey(NamespaceText(b))
    ensures a == b
  {
    HeadKeySplit(a);
    HeadKeySplit(b);
    NamespacePrefix(a, "head", b, "head");
  }

  /** No head key is a page key, whatever the databases. */
  lemma HeadIsNotPage(a: seq<byte>, b: seq<byte>, page: nat, slot: nat)
    ensures HeadKey(NamespaceText(a)) != PageKeyText(NamespaceText(b), page, slot)
  {
    if HeadKey(NamespaceText(a)) == PageKeyText(NamespaceText(b), page, slot) {
      var rest := "page" + "/" + (Decimal(page) + "/" + Decimal(slot));
      HeadKeySplit(a);
      PageKeySplit(b, page, slot);
      NamespacePrefix(a, "head", b, rest);
      assert false;
    }
  }

  /** A page key determines its database, its page and its slot. */
  lemma PageKeysInjective(a: seq<byte>, page: nat, slot: nat, b: seq<byte>, page': nat, slot': nat)
    requires PageKeyText(NamespaceText(a), page, slot) == PageKeyText(NamespaceText(b), page', slot')
    ensures a == b && page == page' && slot == slot'
  {
    var rest := Decimal(page) + "/" + Decimal(slot);
    var rest' := Decimal(page') + "/" + Decimal(slot');
    PageKeySplit(a, page, slot);
    PageKeySplit(b, page', slot');
    NamespacePrefix(a, "page" + "/" + rest, b, "page" + "/" + rest');
    assert ("page" + "/" + rest)[5..] == rest && ("page" + "/" + rest')[5..] == rest';
    NoSlashInDigits(Decimal(page));
    NoSlashInDigits(Decimal(page'));
    SplitAtSlash(Decimal(page), Decimal(slot), Decimal(page'), Decimal(slot'));
    ParseOfDecimal(page);
    ParseOfDecimal(page');
    ParseOfDecimal(slot);
    ParseOfDecimal(slot');
  }

  lemma NoSlashInDigits(text: string)
    requires AllDigits(text)
    ensures '/' !in text
  {
  }

  /** Databases with different names own disjoint sets of keys. */
  lemma KeySpacesDisjoint(a: seq<byte>, b: seq<byte>, key: string)
    requires OwnedBy(a, key) && OwnedBy(b, key)
    ensures a == b
  {
    if key == HeadKey(NamespaceText(a)) {
      if key == HeadKey(NamespaceText(b)) {
        HeadKeysInjective(a, b);
      } else {
        var page: nat, slot: nat :| key == PageKeyText(NamespaceText(b), page, slot);
        HeadIsNotPage(a, b, page, slot);
        assert false;
      }
    } else {
      var page: nat, slot: nat :| key == PageKeyText(NamespaceText(a), page, slot);
      if key == HeadKey(NamespaceText(b)) {
        HeadIsNotPage(b, a, page, slot);
        assert false;
      } else {
        var page': nat, slot': nat :| key == PageKeyText(NamespaceText(b), page', slot');
        PageKeysInjective(a, page, slot, b, page', slot');
      }
    }
  }
}
