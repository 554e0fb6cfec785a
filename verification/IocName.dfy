/** Device names: what the ioconf code makes of a configuration record, a controller and a minor. */
module IocName {
  import opened Common
  import opened IocNumerals

  const IOC_DEVLEN: nat := 47
  const IOC_DESCLEN: nat := 63
  const IOC_MAXMINOR: nat := 255

  /** The minors that names are made for. */
  type Minor = m: nat | m < IOC_MAXMINOR

  /** The routine that turns a unit number into text. */
  datatype Conversion = ToDecimal | ToLetters

  /**
   A cooked configuration record.  `base` is the text in front of the controller or unit, the
   controller number follows it when `explicit`; `diskText` and `partText` stand in front of the
   unit and the partition number.  A disk format nobody knows leaves no conversion.
   */
  datatype Config = Config(base: string, explicit: bool, conv: Option<Conversion>, diskText: string, partText: string,
                           dcount: U32, pcount: U32, desc: string, ext: Option<(U32, string)>)

  /** The fields of a full record in the configuration file. */
  datatype Record = Record(name: string, cfmt: string, ctrlno: U32, dfmt: string, dcount: U32,
                           pfmt: string, pcount: U32, desc: string)
  {
    /** A field of text that is empty makes a record malformed. */
    predicate WellFormed() {
      |name| > 0 && |cfmt| > 0 && |dfmt| > 0 && |pfmt| > 0 && |desc| > 0
    }
  }

  /** The record as the parser stores it. */
  function Cook(r: Record): (c: Config)
    requires r.WellFormed()
  {
    Config(if r.cfmt[0] == '*' then r.name else r.name + r.cfmt,
           r.cfmt[0] != '*',
           if r.dfmt[0] == 'a' then Some(ToLetters) else if r.dfmt[0] in "d%" then Some(ToDecimal) else None,
           if r.dfmt[0] == '%' then r.dfmt[1..] else "",
           if r.pfmt[0] == '*' then "" else r.pfmt,
           r.dcount, r.pcount, Clip(r.desc), None)
  }

  /** Descriptions are cut to what their buffers hold. */
  function Clip(desc: string): (s: string) {
    if |desc| <= IOC_DESCLEN then desc else desc[..IOC_DESCLEN]
  }

  /** An unsigned result is stored modulo 2 to the power of 32. */
  function Wrap(n: nat): (r: U32)
    ensures n < TWO32 ==> r == n
    ensures r <= n
  {
    n % TWO32
  }

  /** The unit number of a disk: the disks of all controllers of one kind are numbered through. */
  function Unit(c: Config, ctrlno: U32, minor: Minor): (u: U32)
    requires c.pcount > 0
  {
    Wrap(minor / c.pcount + if c.explicit then 0 else Wrap(ctrlno * c.dcount))
  }

  /** The largest unsigned value wraps to an empty letter string. */
  function UnitLetters(u: U32): (s: string) {
    if u == TWO32 - 1 then "" else Letters(u)
  }

  function PartDigits(part: nat): (s: string) {
    if part == 0 then "" else Decimal(part)
  }

  /** An unsigned number printed as a signed one. */
  function SignedDecimal(n: U32): (s: string) {
    if n < TWO31 then Decimal(n) else "-" + Decimal(TWO32 - n)
  }

  function Converted(conv: Conversion, unit: U32): (s: string) {
    match conv
    case ToLetters => UnitLetters(unit)
    case ToDecimal => Decimal(unit)
  }

  function NameOf(c: Config, ctrlno: U32, unit: U32, part: nat): (s: string)
    requires c.conv.Some?
  {
    c.base + (if c.explicit then SignedDecimal(ctrlno) else "") + c.diskText + Converted(c.conv.value, unit)
    + (if part == 0 then "" else c.partText) + PartDigits(part)
  }

  predicate Known(c: Config, minor: Minor)
    ensures Known(c, minor) ==> c.pcount > 0
  {
    assert c.pcount == 0 ==> c.dcount * c.pcount == 0;
    minor < Wrap(c.dcount * c.pcount)
  }

  /** The name of a known minor that is not the exception of its record. */
  function DeviceName(c: Config, ctrlno: U32, minor: Minor): (s: string)
    requires c.pcount > 0 && c.conv.Some?
  {
    NameOf(c, ctrlno, Unit(c, ctrlno, minor), minor % c.pcount)
  }

  lemma Quotient(m: nat, p: nat, d: nat)
    requires p > 0 && m < d * p
    ensures m / p < d
  {
    assert p * (m / p) <= m;
  }

  /** A known minor belongs to one of the record's disks. */
  lemma KnownMinor(c: Config, minor: Minor)
    requires Known(c, minor)
    ensures minor / c.pcount < c.dcount
  {
    Quotient(minor, c.pcount, c.dcount);
  }

  /** What a request for a name comes to: no answer, a call through a pointer that was never set, or a name. */
  datatype Answer = NoAnswer | Undefined | Named(name: string)

  /** The name of a minor of an entry; only ordinary names need a conversion. */
  function NameFor(c: Config, ctrlno: U32, minor: Minor): (a: Answer) {
    if !Known(c, minor) then Named("nodev")
    else if c.ext.Some? && c.ext.value.0 == minor then Named(c.ext.value.1)
    else if c.conv.None? then Undefined
    else Named(DeviceName(c, ctrlno, minor))
  }

  /** Generates the name of (entry, minor) with the conversion buffer `out`. */
  method Name(out: array<char>, c: Config, ctrlno: U32, minor: Minor) returns (a: Answer)
    requires out.Length == ROOM + 1
    modifies out
    ensures a == NameFor(c, ctrlno, minor)
  {
    if !Known(c, minor) {
      return Named("nodev");
    }
    if c.ext.Some? && c.ext.value.0 == minor {
      return Named(c.ext.value.1);
    }
    if c.conv.None? {
      return Undefined;
    }
    var name := Assemble(out, c, ctrlno, Unit(c, ctrlno, minor), minor % c.pcount);
    a := Named(name);
  }

  method Assemble(out: array<char>, c: Config, ctrlno: U32, unit: U32, part: nat) returns (name: string)
    requires out.Length == ROOM + 1 && c.conv.Some?
    modifies out
    ensures name == NameOf(c, ctrlno, unit, part)
  {
    var p;
    if c.conv.value == ToLetters {
      p := Ito26(out, unit);
    } else {
      p := Ito10(out, unit);
    }
    var ctrl := if c.explicit then SignedDecimal(ctrlno) else "";
    name := c.base + ctrl + c.diskText + out[p..ROOM];
    if part != 0 {
      name := name + c.partText + Decimal(part);
    } else {
      assert name + "" + "" == name;
    }
  }

  /** Every minor has an answer exactly if the disk format has a conversion, or no minor but the exception is known. */
  lemma NamingDefined(c: Config, ctrlno: U32)
    ensures (forall m: Minor :: NameFor(c, ctrlno, m) != Undefined)
            <==> c.conv.Some? || forall m: Minor :: Known(c, m) ==> c.ext.Some? && c.ext.value.0 == m
  {
    if c.conv.None? {
      forall m: Minor
        ensures NameFor(c, ctrlno, m) != Undefined <==> (Known(c, m) ==> c.ext.Some? && c.ext.value.0 == m)
      {
      }
    }
  }

  /** A line that is accepted, and whose first device has no name. */
  lemma UnknownFormatUndefined(ctrlno: U32)
    ensures var r := Record("disc", "*", ctrlno, "c", 1, "*", 1, "discs");
            r.WellFormed() && NameFor(Cook(r), ctrlno, 0) == Undefined
  {
    KnownMinor(Cook(Record("disc", "*", ctrlno, "c", 1, "*", 1, "discs")), 0);
  }

  // ---------- Names identify devices ----------

  /** Disks named by letters, numbered through all controllers, partitions by a plain number. */
  predicate LetterStyle(c: Config) {
    c.conv == Some(ToLetters) && !c.explicit && c.diskText == "" && c.partText == ""
  }

  lemma CookedLetterStyle(r: Record)
    requires r.WellFormed()
    ensures LetterStyle(Cook(r)) <==> r.cfmt[0] == '*' && r.dfmt[0] == 'a' && r.pfmt[0] == '*'
  {
  }

  lemma UnitsApart(u: U32, v: U32)
    ensures AllLetters(UnitLetters(u))
    ensures UnitLetters(u) == UnitLetters(v) ==> u == v
  {
    LettersAreLetters(u);
    LettersAreLetters(v);
    if Letters(u) == Letters(v) {
      LettersApart(u, v);
    }
  }

  lemma PartsApart(p: nat, q: nat)
    ensures AllDigits(PartDigits(p))
    ensures PartDigits(p) == PartDigits(q) ==> p == q
  {
    DecimalIsDigits(p);
    DecimalIsDigits(q);
    if Decimal(p) == Decimal(q) {
      DecimalApart(p, q);
    }
  }

  function LetterRun(s: string): (n: nat) {
    if s != "" && 'a' <= s[0] <= 'z' then 1 + LetterRun(s[1..]) else 0
  }

  lemma {:induction false} LetterRunEnds(a: string, x: string)
    requires AllLetters(a) && AllDigits(x)
    ensures LetterRun(a + x) == |a|
  {
    if a == "" {
      assert a + x == x;
    } else {
      assert (a + x)[1..] == a[1..] + x;
      LetterRunEnds(a[1..], x);
    }
  }

  /** Letters followed by digits can be taken apart in one way only. */
  lemma SplitUnique(a: string, x: string, b: string, y: string)
    requires AllLetters(a) && AllLetters(b) && AllDigits(x) && AllDigits(y)
    requires a + x == b + y
    ensures a == b && x == y
  {
    LetterRunEnds(a, x);
    LetterRunEnds(b, y);
    assert (a + x)[..|a|] == a && (b + y)[..|b|] == b;
    assert (a + x)[|a|..] == x && (b + y)[|b|..] == y;
  }

  lemma AfterBase(base: string, a: string, x: string, b: string, y: string)
    requires base + a + x == base + b + y
    ensures a + x == b + y
  {
    assert (base + a + x)[|base|..] == a + x && (base + b + y)[|base|..] == b + y;
  }

  lemma SameLettersAndDigits(base: string, u: U32, p: nat, v: U32, q: nat)
    requires base + UnitLetters(u) + PartDigits(p) == base + UnitLetters(v) + PartDigits(q)
    ensures u == v && p == q
  {
    var a, x, b, y := UnitLetters(u), PartDigits(p), UnitLetters(v), PartDigits(q);
    UnitsApart(u, v);
    UnitsApart(v, u);
    PartsApart(p, q);
    PartsApart(q, p);
    AfterBase(base, a, x, b, y);
    SplitUnique(a, x, b, y);
  }

  lemma LetterName(c: Config, ctrlno: U32, unit: U32, part: nat)
    requires LetterStyle(c)
    ensures NameOf(c, ctrlno, unit, part) == c.base + UnitLetters(unit) + PartDigits(part)
  {
    assert c.base + "" + "" == c.base;
    assert c.base + UnitLetters(unit) + "" == c.base + UnitLetters(unit);
  }

  /** Two devices of one letter-named record share a name exactly when unit and partition agree. */
  lemma SameNameIff(c: Config, ctrl1: U32, minor1: Minor, ctrl2: U32, minor2: Minor)
    requires LetterStyle(c) && c.pcount > 0
    ensures DeviceName(c, ctrl1, minor1) == DeviceName(c, ctrl2, minor2)
            <==> Unit(c, ctrl1, minor1) == Unit(c, ctrl2, minor2) && minor1 % c.pcount == minor2 % c.pcount
  {
    var u, p, v, q := Unit(c, ctrl1, minor1), minor1 % c.pcount, Unit(c, ctrl2, minor2), minor2 % c.pcount;
    LetterName(c, ctrl1, u, p);
    LetterName(c, ctrl2, v, q);
    if DeviceName(c, ctrl1, minor1) == DeviceName(c, ctrl2, minor2) {
      SameLettersAndDigits(c.base, u, p, v, q);
    }
  }

  lemma UnitWithoutWrap(c: Config, ctrlno: U32, minor: Minor)
    requires LetterStyle(c) && Known(c, minor) && (ctrlno + 1) * c.dcount <= TWO32
    ensures Unit(c, ctrlno, minor) == c.dcount * ctrlno + minor / c.pcount
  {
    KnownMinor(c, minor);
    var first: nat := ctrlno * c.dcount;
    assert (ctrlno + 1) * c.dcount == first + c.dcount;
  }

  lemma QuotientUnique(d: nat, a: nat, r: nat, b: nat, s: nat)
    requires r < d && s < d && d * a + r == d * b + s
    ensures a == b && r == s
  {
    assert d * (a - b) == d * a - d * b;
    SmallMultiple(d, a - b, s - r);
  }

  lemma DivModUnique(p: nat, m: nat, n: nat)
    requires p > 0 && m / p == n / p && m % p == n % p
    ensures m == n
  {
    assert m == p * (m / p) + m % p && n == p * (n / p) + n % p;
  }

  lemma SameNumbers(d: nat, p: nat, ctrl1: nat, minor1: nat, ctrl2: nat, minor2: nat)
    requires p > 0 && minor1 / p < d && minor2 / p < d
    requires d * ctrl1 + minor1 / p == d * ctrl2 + minor2 / p && minor1 % p == minor2 % p
    ensures ctrl1 == ctrl2 && minor1 == minor2
  {
    QuotientUnique(d, ctrl1, minor1 / p, ctrl2, minor2 / p);
    DivModUnique(p, minor1, minor2);
  }

  /** As long as the unit numbers of the two controllers do not wrap, names identify controller and minor. */
  lemma NamesIdentifyDevices(c: Config, ctrl1: U32, minor1: Minor, ctrl2: U32, minor2: Minor)
    requires LetterStyle(c) && Known(c, minor1) && Known(c, minor2)
    requires (ctrl1 + 1) * c.dcount <= TWO32 && (ctrl2 + 1) * c.dcount <= TWO32
    ensures DeviceName(c, ctrl1, minor1) == DeviceName(c, ctrl2, minor2) <==> ctrl1 == ctrl2 && minor1 == minor2
  {
    if DeviceName(c, ctrl1, minor1) == DeviceName(c, ctrl2, minor2) {
      SameNameIff(c, ctrl1, minor1, ctrl2, minor2);
      SameUnits(c, ctrl1, minor1, ctrl2, minor2);
    }
  }

  lemma SameUnits(c: Config, ctrl1: U32, minor1: Minor, ctrl2: U32, minor2: Minor)
    requires LetterStyle(c) && Known(c, minor1) && Known(c, minor2)
    requires (ctrl1 + 1) * c.dcount <= TWO32 && (ctrl2 + 1) * c.dcount <= TWO32
    requires Unit(c, ctrl1, minor1) == Unit(c, ctrl2, minor2) && minor1 % c.pcount == minor2 % c.pcount
    ensures ctrl1 == ctrl2 && minor1 == minor2
  {
    UnitWithoutWrap(c, ctrl1, minor1);
    UnitWithoutWrap(c, ctrl2, minor2);
    KnownMinor(c, minor1);
    KnownMinor(c, minor2);
    SameNumbers(c.dcount, c.pcount, ctrl1, minor1, ctrl2, minor2);
  }

  /** With enough controllers the unit number wraps around and two devices get the same name. */
  lemma WrappedUnitsCollide(c: Config)
    requires LetterStyle(c) && c.dcount == 2 && c.pcount == 16
    ensures DeviceName(c, 0, 0) == DeviceName(c, 0x8000_0000, 0)
  {
    SameNameIff(c, 0, 0, 0x8000_0000, 0);
  }

  /** Names of letter-named records fit the name buffer. */
  lemma NameFits(c: Config, ctrlno: U32, minor: Minor)
    requires LetterStyle(c) && c.pcount > 0 && |c.base| <= 31 && minor < IOC_MAXMINOR
    ensures |DeviceName(c, ctrlno, minor)| <= IOC_DEVLEN
  {
    NumeralsFit(Unit(c, ctrlno, minor));
    var part := minor % c.pcount;
    PartSmall(minor, c.pcount);
    DecimalLength(part, 3);
  }

  lemma PartSmall(m: nat, p: nat)
    requires p > 0
    ensures m % p <= m
  {
  }
}
