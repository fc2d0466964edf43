/**
 * Logical-node references of the IEC 61850 mapper (include/IEC61850Mapper.h, src/IEC61850Mapper.cpp):
 * the printed form prefix + class name + instance number, and the look-up that compares printed forms.
 */
module MapperReferences {
  import opened Common

  // ---------- Class names ----------

  const USER: nat := 255

  function GetLNClassName(lnClass: nat): string {
    if lnClass == 0 then "LPHD"
    else if lnClass == 1 then "LLN0"
    else if lnClass == 10 then "XCBR"
    else if lnClass == 11 then "XSWI"
    else if lnClass == 12 then "CILO"
    else if lnClass == 13 then "CSWI"
    else if lnClass == 20 then "MMXU"
    else if lnClass == 21 then "MMTR"
    else if lnClass == 22 then "MHAN"
    else if lnClass == 23 then "MHAI"
    else if lnClass == 30 then "PTOC"
    else if lnClass == 31 then "PDIS"
    else if lnClass == 32 then "PIOC"
    else if lnClass == 33 then "PDEF"
    else if lnClass == 34 then "PVOC"
    else if lnClass == 35 then "PTEV"
    else if lnClass == 40 then "RREC"
    else if lnClass == 41 then "RBRF"
    else if lnClass == 50 then "YLTC"
    else if lnClass == 51 then "TCTR"
    else if lnClass == 52 then "TVTR"
    else if lnClass == 60 then "GAPC"
    else "USER"
  }

  function ParseLNClassName(name: string): nat {
    if name == "LPHD" then 0
    else if name == "LLN0" then 1
    else if name == "XCBR" then 10
    else if name == "XSWI" then 11
    else if name == "CILO" then 12
    else if name == "CSWI" then 13
    else if name == "MMXU" then 20
    else if name == "MMTR" then 21
    else if name == "MHAN" then 22
    else if name == "MHAI" then 23
    else if name == "PTOC" then 30
    else if name == "PDIS" then 31
    else if name == "PIOC" then 32
    else if name == "PDEF" then 33
    else if name == "PVOC" then 34
    else if name == "PTEV" then 35
    else if name == "RREC" then 40
    else if name == "RBRF" then 41
    else if name == "YLTC" then 50
    else if name == "TCTR" then 51
    else if name == "TVTR" then 52
    else if name == "GAPC" then 60
    else USER
  }

  /** The 22 class codes that have a name of their own. */
  predicate Named(c: nat) {
    c <= 1 || 10 <= c <= 13 || 20 <= c <= 23 || 30 <= c <= 35 || 40 <= c <= 41 || 50 <= c <= 52 || c == 60
  }

  lemma SwitchgearRoundTrip(c: nat)
    requires Named(c) && c < 20
    ensures ParseLNClassName(GetLNClassName(c)) == c
  {
  }

  lemma MeasurementRoundTrip(c: nat)
    requires Named(c) && 20 <= c < 30
    ensures ParseLNClassName(GetLNClassName(c)) == c
  {
  }

  lemma ProtectionRoundTrip(c: nat)
    requires Named(c) && 30 <= c < 40
    ensures ParseLNClassName(GetLNClassName(c)) == c
  {
  }

  lemma RelatedRoundTrip(c: nat)
    requires Named(c) && 40 <= c < 50
    ensures ParseLNClassName(GetLNClassName(c)) == c
  {
  }

  lemma TransformerRoundTrip(c: nat)
    requires Named(c) && 50 <= c < 60
    ensures ParseLNClassName(GetLNClassName(c)) == c
  {
  }

  lemma ControlRoundTrip(c: nat)
    requires Named(c) && 60 <= c
    ensures ParseLNClassName(GetLNClassName(c)) == c
  {
  }

  lemma UnnamedPrintsUser(c: nat)
    requires !Named(c)
    ensures GetLNClassName(c) == "USER" && ParseLNClassName("USER") == USER
  {
  }

  /** Parsing the printed name gives back the class exactly for the named classes and USER, and USER for all others. */
  lemma ClassNameRoundTrip(lnClass: nat)
    ensures ParseLNClassName(GetLNClassName(lnClass)) == if Named(lnClass) then lnClass else USER
    ensures ParseLNClassName(GetLNClassName(lnClass)) == lnClass <==> Named(lnClass) || lnClass == USER
  {
    if !Named(lnClass) {
      UnnamedPrintsUser(lnClass);
    } else if lnClass < 20 {
      SwitchgearRoundTrip(lnClass);
    } else if lnClass < 30 {
      MeasurementRoundTrip(lnClass);
    } else if lnClass < 40 {
      ProtectionRoundTrip(lnClass);
    } else if lnClass < 50 {
      RelatedRoundTrip(lnClass);
    } else if lnClass < 60 {
      TransformerRoundTrip(lnClass);
    } else {
      ControlRoundTrip(lnClass);
    }
  }

  lemma PrintingParsesBack(name: string)
    ensures GetLNClassName(ParseLNClassName(name)) == if ParseLNClassName(name) == USER then "USER" else name
  {
  }

  /** The enumerators of LNClass as declared, with their values. */
  const ENUMERATORS: seq<(string, nat)> :=
    [("LPHD", 0), ("LLN0", 1), ("XCBR", 10), ("XSWI", 11), ("CILO", 12), ("CSWI", 13),
     ("MMXU", 20), ("MMTR", 21), ("MHAN", 22), ("MHAI", 23),
     ("PTOC", 30), ("PDIS", 31), ("PIOC", 32), ("PDEF", 33), ("PVOC", 34), ("PTEV", 35),
     ("RREC", 40), ("RBRF", 41), ("YLTC", 50), ("TCTR", 51), ("TVTR", 52), ("GAPC", 60), ("USER", 255)]

  /** Every enumerator is printed by its own name, and its name is parsed back. */
  lemma EnumeratorsPrintTheirNames(i: nat)
    requires i < |ENUMERATORS|
    ensures var (name, value) := ENUMERATORS[i]; GetLNClassName(value) == name && ParseLNClassName(name) == value
  {
    EnumeratorPrints(i);
    ClassNameRoundTrip(ENUMERATORS[i].1);
  }

  lemma EnumeratorPrints(i: nat)
    requires i < |ENUMERATORS|
    ensures GetLNClassName(ENUMERATORS[i].1) == ENUMERATORS[i].0
    ensures Named(ENUMERATORS[i].1) || ENUMERATORS[i].1 == USER
  {
  }

  predicate IsDigit(c: char) {
    '0' <= c <= '9'
  }

  /** Four characters, and only LLN0 ends in a digit; its last but one character is none. */
  lemma ClassNameShape(lnClass: nat)
    ensures var s := GetLNClassName(lnClass);
            && |s| == 4 && !IsDigit(s[2])
            && (IsDigit(s[3]) ==> s[3] == '0')
  {
  }

  // ---------- Decimal numbers ----------

  function Digit(d: nat): char
    requires d < 10
  {
    '0' + d as char
  }

  /** The decimal form of a number, without leading zeros. */
  function Decimal(n: nat): (s: string)
    ensures |s| > 0 && (forall i :: 0 <= i < |s| ==> IsDigit(s[i]))
    ensures |s| > 1 ==> s[0] != '0'
    ensures s[0] == '0' <==> n == 0
  {
    if n < 10 then [Digit(n)] else Decimal(n / 10) + [Digit(n % 10)]
  }

  /** The number that a string of decimal digits stands for. */
  function PlaceValue(s: string): int {
    if s == [] then 0 else 10 * PlaceValue(s[..|s| - 1]) + (s[|s| - 1] as int - '0' as int)
  }

  /** Each digit has its value and its place: the decimal form stands for the number. */
  lemma {:induction false} DecimalMeans(n: nat)
    ensures PlaceValue(Decimal(n)) == n
    ensures forall d :: 0 <= d < 10 ==> Decimal(d) == ["0123456789"[d]]
  {
    if n < 10 {
      assert Decimal(n)[..0] == [];
    } else {
      DecimalMeans(n / 10);
      assert Decimal(n)[..|Decimal(n)| - 1] == Decimal(n / 10);
    }
  }

  lemma {:induction false} DecimalInjective(a: nat, b: nat)
    requires Decimal(a) == Decimal(b)
    ensures a == b
    decreases a
  {
    var s, t := Decimal(a), Decimal(b);
    assert s[|s| - 1] == Digit(a % 10) && t[|t| - 1] == Digit(b % 10);
    if a >= 10 && b >= 10 {
      assert s[..|s| - 1] == Decimal(a / 10) && t[..|t| - 1] == Decimal(b / 10);
      DecimalInjective(a / 10, b / 10);
    }
  }

  lemma InstanceDigits(n: nat)
    ensures n < 10 ==> |Decimal(n)| == 1
    ensures n < 100 ==> |Decimal(n)| <= 2
    ensures n < 1000 ==> |Decimal(n)| <= 3
  {
    if 10 <= n < 1000 {
      InstanceDigits(n / 10);
    }
  }

  // ---------- References ----------

  function Reference(prefix: string, lnClass: nat, inst: nat): string {
    prefix + GetLNClassName(lnClass) + Decimal(inst)
  }

  /** The parts of a reference and where they are. */
  lemma ReferenceParts(prefix: string, lnClass: nat, inst: nat)
    ensures var r, p := Reference(prefix, lnClass, inst), |prefix|;
            |r| >= p + 4 && r[..p] == prefix && r[p..p + 4] == GetLNClassName(lnClass) && PlaceValue(r[p + 4..]) == inst
  {
    ClassNameShape(lnClass);
    DecimalMeans(inst);
    assert Reference(prefix, lnClass, inst)[|prefix| + 4..] == Decimal(inst);
  }

  /**
   * A shorter instance number cannot be the end of a longer one: the class name before it would have to
   * end in the remaining digits, and only LLN0 ends in a digit, a zero, which leads no number.
   */
  lemma LengthsTellApart(p: string, c: nat, i: nat, q: string, d: nat, j: nat)
    requires |Decimal(i)| < |Decimal(j)|
    ensures Reference(p, c, i) != Reference(q, d, j)
  {
    var r, t, a, b := Reference(p, c, i), Reference(q, d, j), |Decimal(i)|, |Decimal(j)|;
    ClassNameShape(c);
    ClassNameShape(d);
    if |r| == |t| {
      var n := |r|;
      if b == a + 1 {
        assert r[n - b] == GetLNClassName(c)[3] && t[n - b] == Decimal(j)[0];
      } else {
        assert r[n - a - 2] == GetLNClassName(c)[2] && t[n - a - 2] == Decimal(j)[b - a - 2];
      }
    }
  }

  /**
   * A reference determines its prefix, class name and instance, although the class name LLN0 ends in a
   * digit and prefixes are arbitrary.
   */
  lemma ReferenceInjective(p: string, c: nat, i: nat, q: string, d: nat, j: nat)
    ensures Reference(p, c, i) == Reference(q, d, j)
       <==> p == q && GetLNClassName(c) == GetLNClassName(d) && i == j
  {
    if Reference(p, c, i) == Reference(q, d, j) {
      assert |Decimal(i)| == |Decimal(j)| by {
        if |Decimal(i)| < |Decimal(j)| {
          LengthsTellApart(p, c, i, q, d, j);
        } else if |Decimal(i)| > |Decimal(j)| {
          LengthsTellApart(q, d, j, p, c, i);
        }
      }
      ClassNameShape(c);
      ClassNameShape(d);
      var r, b := Reference(p, c, i), |Reference(p, c, i)| - |Decimal(i)|;
      assert r[b..] == Decimal(i) && r[b..] == Decimal(j);
      DecimalInjective(i, j);
      assert r[b - 4..b] == GetLNClassName(c) && r[b - 4..b] == GetLNClassName(d);
      assert r[..b - 4] == p && r[..b - 4] == q;
    }
  }

  // ---------- The mapping table ----------

  const INVALID_INDEX: nat := 0xFFFFFFFF

  /** The fields of DAMapping that identify it; the prefix has at most three characters before its terminator. */
  datatype DAMapping = DAMapping(dataKey: nat, lnPrefix: string, lnClass: nat, lnInst: nat,
                                 doName: string, daName: string, dataIndex: nat)

  ghost predicate Storable(m: DAMapping) {
    |m.lnPrefix| <= 3 && m.lnClass < 256 && m.lnInst < 256
  }

  /** snprintf into a buffer of 32 characters, terminator included. */
  function PrintedReference(m: DAMapping): string {
    var full := Reference(m.lnPrefix, m.lnClass, m.lnInst);
    if |full| <= 31 then full else full[..31]
  }

  lemma NeverTruncated(m: DAMapping)
    requires Storable(m)
    ensures PrintedReference(m) == Reference(m.lnPrefix, m.lnClass, m.lnInst)
  {
    ClassNameShape(m.lnClass);
    InstanceDigits(m.lnInst);
  }

  predicate Names(m: DAMapping, prefix: string, lnClass: nat, inst: nat, doName: string, daName: string) {
    m.lnPrefix == prefix && GetLNClassName(m.lnClass) == GetLNClassName(lnClass) && m.lnInst == inst
    && m.doName == doName && m.daName == daName
  }

  predicate Printed(m: DAMapping, lnRef: string, doName: string, daName: string) {
    PrintedReference(m) == lnRef && m.doName == doName && m.daName == daName
  }

  /** For a stored mapping, a printed reference agrees with a query exactly when all five components do. */
  lemma PrintedMeansNamed(m: DAMapping, prefix: string, lnClass: nat, inst: nat, doName: string, daName: string)
    requires Storable(m)
    ensures Printed(m, Reference(prefix, lnClass, inst), doName, daName) <==> Names(m, prefix, lnClass, inst, doName, daName)
  {
    NeverTruncated(m);
    ReferenceInjective(m.lnPrefix, m.lnClass, m.lnInst, prefix, lnClass, inst);
  }

  /** The answer is the first entry with the five components, or none has them. */
  ghost predicate FirstNamed(table: seq<DAMapping>, answer: Option<DAMapping>, prefix: string, lnClass: nat, inst: nat,
                             doName: string, daName: string) {
    match answer
    case None => forall k :: 0 <= k < |table| ==> !Names(table[k], prefix, lnClass, inst, doName, daName)
    case Some(m) => exists i :: 0 <= i < |table| && table[i] == m && Names(m, prefix, lnClass, inst, doName, daName)
                                && forall k :: 0 <= k < i ==> !Names(table[k], prefix, lnClass, inst, doName, daName)
  }

  /** The answer is the first entry whose printed reference and names match, or none does. */
  ghost predicate FirstPrinted(table: seq<DAMapping>, answer: Option<DAMapping>, lnRef: string, doName: string, daName: string) {
    match answer
    case None => forall k :: 0 <= k < |table| ==> !Printed(table[k], lnRef, doName, daName)
    case Some(m) => exists i :: 0 <= i < |table| && table[i] == m && Printed(m, lnRef, doName, daName)
                                && forall k :: 0 <= k < i ==> !Printed(table[k], lnRef, doName, daName)
  }

  /** Among stored mappings the first one printed like a reference is the first one with its five components. */
  lemma FirstPrintedIsFirstNamed(table: seq<DAMapping>, answer: Option<DAMapping>, prefix: string, lnClass: nat, inst: nat,
                                 doName: string, daName: string)
    requires forall k :: 0 <= k < |table| ==> Storable(table[k])
    ensures FirstPrinted(table, answer, Reference(prefix, lnClass, inst), doName, daName)
       <==> FirstNamed(table, answer, prefix, lnClass, inst, doName, daName)
  {
    forall k | 0 <= k < |table|
      ensures Printed(table[k], Reference(prefix, lnClass, inst), doName, daName)
         <==> Names(table[k], prefix, lnClass, inst, doName, daName)
    {
      PrintedMeansNamed(table[k], prefix, lnClass, inst, doName, daName);
    }
  }

  lemma FirstPrintedIsNamed(table: seq<DAMapping>, answer: Option<DAMapping>, lnRef: string, doName: string, daName: string)
    requires (forall k :: 0 <= k < |table| ==> Storable(table[k])) && FirstPrinted(table, answer, lnRef, doName, daName)
    ensures forall prefix: string, lnClass: nat, inst: nat :: lnRef == Reference(prefix, lnClass, inst) ==>
              FirstNamed(table, answer, prefix, lnClass, inst, doName, daName)
  {
    forall prefix: string, lnClass: nat, inst: nat | lnRef == Reference(prefix, lnClass, inst)
      ensures FirstNamed(table, answer, prefix, lnClass, inst, doName, daName)
    {
      FirstPrintedIsFirstNamed(table, answer, prefix, lnClass, inst, doName, daName);
    }
  }

  function SwappedOut(s: seq<DAMapping>, k: nat): seq<DAMapping>
    requires k < |s|
  {
    var n := |s| - 1;
    if k < n then s[..n][k := s[n]] else s[..n]
  }

  /** Removal loses exactly the entry at k; the others keep their index but for the last, which moves to k. */
  lemma RemovalLosesOne(s: seq<DAMapping>, k: nat)
    requires k < |s|
    ensures multiset(SwappedOut(s, k)) == multiset(s) - multiset{s[k]}
    ensures forall i :: 0 <= i < |s| - 1 ==> SwappedOut(s, k)[i] == if i == k then s[|s| - 1] else s[i]
  {
    var n := |s| - 1;
    assert s == s[..n] + [s[n]];
  }

  class MappingTable {
    const mappings: array<DAMapping>
    var mapped: bool
    var mappingCount: nat

    ghost predicate Valid()
      reads this, mappings
    {
      mappingCount <= mappings.Length < UINT32_RANGE && forall i :: 0 <= i < mappingCount ==> Storable(mappings[i])
    }

    ghost function View(): seq<DAMapping>
      reads this, mappings
      requires Valid()
    {
      mappings[..mappingCount]
    }

    constructor (maxMappings: nat)
      requires maxMappings < UINT32_RANGE
      ensures Valid() && mapped && View() == [] && mappings.Length == maxMappings && fresh(mappings)
    {
      mappings := new DAMapping[maxMappings](_ => DAMapping(0, "", 0, 0, "", "", 0));
      mapped, mappingCount := true, 0;
    }

    method AddDAMapping(mapping: DAMapping) returns (index: nat)
      requires Valid() && Storable(mapping)
      modifies this`mappingCount, mappings
      ensures Valid()
      ensures if mapped && old(mappingCount) < mappings.Length
              then index == old(mappingCount) && View() == old(View()) + [mapping.(dataIndex := INVALID_INDEX)]
              else index == INVALID_INDEX && View() == old(View())
    {
      if !mapped || mappingCount >= mappings.Length {
        return INVALID_INDEX;
      }
      index := mappingCount;
      mappingCount := mappingCount + 1;
      mappings[index] := mapping;
      mappings[index] := mappings[index].(dataIndex := INVALID_INDEX);
    }

    method RemoveDAMapping(index: nat) returns (removed: bool)
      requires Valid()
      modifies this`mappingCount, mappings
      ensures Valid()
      ensures removed <==> mapped && index < old(mappingCount)
      ensures View() == if removed then SwappedOut(old(View()), index) else old(View())
    {
      if !mapped || index >= mappingCount {
        return false;
      }
      if index < mappingCount - 1 {
        mappings[index] := mappings[mappingCount - 1];
      }
      mappingCount := mappingCount - 1;
      return true;
    }

    /** Compares printed references, and so finds the first mapping that agrees in all five components. */
    method FindMappingByRef(lnRef: string, doName: string, daName: string) returns (mapping: Option<DAMapping>)
      requires Valid()
      ensures !mapped ==> mapping == None
      ensures mapped ==> FirstPrinted(View(), mapping, lnRef, doName, daName)
      ensures mapped ==> forall prefix: string, lnClass: nat, inst: nat :: lnRef == Reference(prefix, lnClass, inst) ==>
                           FirstNamed(View(), mapping, prefix, lnClass, inst, doName, daName)
    {
      if !mapped {
        return None;
      }
      mapping := None;
      for i := 0 to mappingCount
        invariant forall k :: 0 <= k < i ==> !Printed(View()[k], lnRef, doName, daName)
      {
        var m := mappings[i];
        if PrintedReference(m) == lnRef && m.doName == doName && m.daName == daName {
          assert View()[i] == m;
          mapping := Some(m);
          break;
        }
      }
      assert FirstPrinted(View(), mapping, lnRef, doName, daName);
      FirstPrintedIsNamed(View(), mapping, lnRef, doName, daName);
    }
  }
}
