/**
 * The rule table of a Life-like automaton (`LifeLike` in src/lib.rs): a rule string
 * `B<digits>/S<digits>` compiled into 18 booleans, one per (status, neighbour count)
 * slot, and the direct Conway rule used to cross-check it.
 */
module Rules {
  import opened Wrappers

  /** Slots in a compiled table: 2 statuses times the 9 counts 0..8. */
  const TableSize: nat := 18

  /**
   * `encode_index`: the status in bit 0 and the low four bits of the count above it.
   * (`n & 0b1111` on an unsigned count is `n % 16`.)
   */
  function EncodeIndex(status: bool, neighbors: nat): (index: nat)
    ensures index < 32
  {
    (if status then 1 else 0) + (neighbors % 16) * 2
  }

  /** `decode_index`: bit 0 is the status, bits 1..4 the count (`(i & 0b11110) >> 1`). */
  function DecodeIndex(index: nat): (r: (bool, nat))
    ensures r.1 < 16
  {
    (index % 2 != 0, (index % 32) / 2)
  }

  /** `decode_index(encode_index(s, n)) == (s, n & 0b1111)` for every status and count. */
  lemma DecodeEncode(status: bool, neighbors: nat)
    ensures DecodeIndex(EncodeIndex(status, neighbors)) == (status, neighbors % 16)
  {
  }

  /** Encoding is injective on (status, low four bits of the count). */
  lemma EncodeInjective(s1: bool, n1: nat, s2: bool, n2: nat)
    ensures EncodeIndex(s1, n1) == EncodeIndex(s2, n2) <==> s1 == s2 && n1 % 16 == n2 % 16
  {
    DecodeEncode(s1, n1);
    DecodeEncode(s2, n2);
  }

  /** Counts whose low four bits are at most 8 land inside the 18-slot table; the others past it. */
  lemma EncodeInTable(status: bool, neighbors: nat)
    ensures EncodeIndex(status, neighbors) < TableSize <==> neighbors % 16 <= 8
  {
  }

  /** A compiled rule: the table `rules: Box<[bool; 18]>`. */
  datatype LifeLike = LifeLike(rules: seq<bool>) {
    predicate Valid() {
      |rules| == TableSize
    }
  }

  /**
   * `simulate`: reads the slot of (status, count). The source indexes the 18-entry
   * array directly, so a count whose low four bits exceed 8 would panic.
   */
  function Simulate(rule: LifeLike, status: bool, neighbors: nat): (next: bool)
    requires rule.Valid()
    requires neighbors % 16 <= 8
    ensures forall i :: 0 <= i < TableSize && DecodeIndex(i) == (status, neighbors % 16) ==> next == rule.rules[i]
  {
    rule.rules[EncodeIndex(status, neighbors)]
  }

  /** `ConwaysLife::simulate_with_logic`: B3/S23 written out. */
  function SimulateWithLogic(status: bool, aliveNeighbors: nat): (next: bool)
    ensures next <==> aliveNeighbors == 3 || (status && aliveNeighbors == 2)
  {
    if status then 2 <= aliveNeighbors <= 3 else aliveNeighbors == 3
  }

  // ---------------------------------------------------------------------------
  // The rule string

  datatype RuleError =
    | NotAscii               // "definition string must be ascii"
    | NoSeparator            // "invalid definition string format"
    | MissingBirthPrefix     // "first part of def string must start with 'b'"
    | MissingSurvivalPrefix  // "second part of def string must start with 's'"
    | BadBirthDigit          // "could not parse numbers from definition string first part"
    | BadSurvivalDigit       // "could not parse numbers from definition string second part"
    | SlotOutOfRange         // digit 9: `rules[18]` is out of bounds and the source panics

  /** A character of the 7-bit ASCII range. */
  predicate IsAsciiChar(c: char) {
    (c as int) < 0x80
  }

  /** `str::is_ascii`. */
  predicate IsAscii(s: string) {
    forall i :: 0 <= i < |s| ==> IsAsciiChar(s[i])
  }

  /** What `char::to_digit(10)` accepts (on ASCII input). */
  predicate IsDecimalDigit(c: char) {
    '0' <= c <= '9'
  }

  function DigitValue(c: char): (d: nat)
    requires IsDecimalDigit(c)
    ensures d <= 9
  {
    c as int - '0' as int
  }

  /** A digit whose slot exists in the table: 0 to 8. */
  predicate IsRuleDigit(c: char) {
    '0' <= c <= '8'
  }

  /** The character of the count `n <= 8`. */
  function DigitChar(n: nat): (c: char)
    requires n <= 8
    ensures IsRuleDigit(c) && DigitValue(c) == n
  {
    ('0' as int + n) as char
  }

  /** Position of the first `/` of `s`, as `split_once('/')` finds it. */
  function FindSlash(s: string): (r: Option<nat>)
    ensures r.None? <==> '/' !in s
    ensures r.Some? ==> r.value < |s| && s[r.value] == '/' && '/' !in s[..r.value]
  {
    if |s| == 0 then None
    else if s[0] == '/' then Some(0)
    else
      match FindSlash(s[1..])
      case None => None
      case Some(k) =>
        assert s[..k + 1] == [s[0]] + s[1..][..k];
        Some(k + 1)
  }

  /** `split_once('/')`: the text before and after the first `/`. */
  function SplitOnce(s: string): (r: Option<(string, string)>)
    ensures r.None? <==> '/' !in s
    ensures r.Some? ==> s == r.value.0 + ['/'] + r.value.1 && '/' !in r.value.0
  {
    match FindSlash(s)
    case None => None
    case Some(k) => Some((s[..k], s[k + 1..]))
  }

  /** One of the two letters `strip_prefix` accepts leads `s`. */
  predicate HasPrefix(s: string, lower: char, upper: char) {
    |s| > 0 && (s[0] == lower || s[0] == upper)
  }

  /** Length of the longest prefix of `ds` made of digits 0..8. */
  function ValidDigitsPrefix(ds: string): (k: nat)
    ensures k <= |ds|
    ensures forall j :: 0 <= j < k ==> IsRuleDigit(ds[j])
    ensures k < |ds| ==> !IsRuleDigit(ds[k])
  {
    if |ds| == 0 || !IsRuleDigit(ds[0]) then 0 else 1 + ValidDigitsPrefix(ds[1..])
  }

  /** The error raised by the first character of a digit run that has no slot. */
  function DigitError(c: char, nonDigit: RuleError): RuleError {
    if c == '9' then SlotOutOfRange else nonDigit
  }

  /**
   * The table a rule compiles to: the slot of (dead, n) is set exactly when digit n
   * occurs among the birth digits, that of (alive, n) when it occurs among the
   * survival digits.
   */
  function Table(births: string, survivals: string): (t: seq<bool>)
    ensures |t| == TableSize
  {
    seq(TableSize, i requires 0 <= i < TableSize =>
      DigitChar(DecodeIndex(i).1) in (if DecodeIndex(i).0 then survivals else births))
  }

  /** The whole of `LifeLike::new`, stated as a function of the definition string. */
  function Compile(def: string): (r: Result<LifeLike, RuleError>)
    ensures r.Ok? ==> r.value.Valid()
  {
    if !IsAscii(def) then Err(NotAscii)
    else match SplitOnce(def)
      case None => Err(NoSeparator)
      case Some((b, s)) =>
        if !HasPrefix(b, 'b', 'B') then Err(MissingBirthPrefix)
        else if !HasPrefix(s, 's', 'S') then Err(MissingSurvivalPrefix)
        else CompileRuns(b[1..], s[1..])
  }

  /** The digit runs after the prefixes: the first character without a slot is the error. */
  function CompileRuns(births: string, survivals: string): (r: Result<LifeLike, RuleError>)
    ensures r.Ok? <==>
      (forall j :: 0 <= j < |births| ==> IsRuleDigit(births[j]))
      && (forall j :: 0 <= j < |survivals| ==> IsRuleDigit(survivals[j]))
  {
    var kb, ks := ValidDigitsPrefix(births), ValidDigitsPrefix(survivals);
    if kb < |births| then Err(DigitError(births[kb], BadBirthDigit))
    else if ks < |survivals| then Err(DigitError(survivals[ks], BadSurvivalDigit))
    else Ok(LifeLike(Table(births, survivals)))
  }

  /** The prefix of rule digits ends at the first character that is not one. */
  lemma {:induction false} ValidDigitsPrefixAt(ds: string, k: nat)
    requires k < |ds|
    requires forall j :: 0 <= j < k ==> IsRuleDigit(ds[j])
    requires !IsRuleDigit(ds[k])
    ensures ValidDigitsPrefix(ds) == k
  {
    if k > 0 {
      ValidDigitsPrefixAt(ds[1..], k - 1);
    }
  }

  /** Setting the slot of one more birth (survival) digit extends the table by that digit. */
  lemma TableAddDigit(births: string, survivals: string, c: char, status: bool)
    requires IsRuleDigit(c)
    ensures status ==>
      Table(births, survivals + [c]) == Table(births, survivals)[EncodeIndex(true, DigitValue(c)) := true]
    ensures !status ==>
      Table(births + [c], survivals) == Table(births, survivals)[EncodeIndex(false, DigitValue(c)) := true]
  {
    var slot := EncodeIndex(status, DigitValue(c));
    forall i | 0 <= i < TableSize
      ensures status ==> Table(births, survivals + [c])[i] == Table(births, survivals)[slot := true][i]
      ensures !status ==> Table(births + [c], survivals)[i] == Table(births, survivals)[slot := true][i]
    {
      TableSlotAddDigit(births, survivals, c, status, i);
    }
  }

  /** One slot of the same: it is the digit's own slot, or it keeps its value. */
  lemma TableSlotAddDigit(births: string, survivals: string, c: char, status: bool, i: nat)
    requires IsRuleDigit(c) && i < TableSize
    ensures var slot := EncodeIndex(status, DigitValue(c));
      && (status ==> Table(births, survivals + [c])[i] == (i == slot || Table(births, survivals)[i]))
      && (!status ==> Table(births + [c], survivals)[i] == (i == slot || Table(births, survivals)[i]))
  {
    var (st, n) := DecodeIndex(i);
    assert EncodeIndex(st, n) == i;
    EncodeInjective(st, n, status, DigitValue(c));
    assert DigitChar(n) == c <==> n == DigitValue(c);
  }

  /** The table of one digit run `ds` (of `status`) next to the other status's run `other`. */
  function RunTable(status: bool, ds: string, other: string): (t: seq<bool>)
    ensures |t| == TableSize
  {
    if status then Table(other, ds) else Table(ds, other)
  }

  lemma RunTableAddDigit(status: bool, ds: string, other: string, c: char)
    requires IsRuleDigit(c)
    ensures RunTable(status, ds + [c], other) == RunTable(status, ds, other)[EncodeIndex(status, DigitValue(c)) := true]
  {
    if status {
      TableAddDigit(other, ds, c, true);
    } else {
      TableAddDigit(ds, other, c, false);
    }
  }

  /**
   * `LifeLike::new`: checks the string, then loops over each digit run setting the
   * slot of every digit, stopping at the first character that is not a digit.
   */
  method New(def: string) returns (r: Result<LifeLike, RuleError>)
    ensures r == Compile(def)
  {
    if !IsAscii(def) {
      return Err(NotAscii);
    }
    var split := SplitOnce(def);
    if split.None? {
      return Err(NoSeparator);
    }
    var (b, s) := split.value;
    if !HasPrefix(b, 'b', 'B') {
      return Err(MissingBirthPrefix);
    }
    if !HasPrefix(s, 's', 'S') {
      return Err(MissingSurvivalPrefix);
    }
    b, s := b[1..], s[1..];
    assert Compile(def) == CompileRuns(b, s);

    var rules := new bool[TableSize](_ => false);
    assert rules[..] == RunTable(false, [], []);
    var err := MarkRun(rules, b, false, []);
    if err.Some? {
      return Err(err.value);
    }
    err := MarkRun(rules, s, true, b);
    if err.Some? {
      return Err(err.value);
    }
    return Ok(LifeLike(rules[..]));
  }

  /**
   * One digit loop of `new`: sets the slot of each digit of `ds` for `status`, and
   * stops with the error of the first character that is not a digit 0..8.
   */
  method MarkRun(rules: array<bool>, ds: string, status: bool, ghost other: string)
      returns (err: Option<RuleError>)
    requires rules[..] == RunTable(status, [], other)
    modifies rules
    ensures err.None? <==> ValidDigitsPrefix(ds) == |ds|
    ensures err.Some? ==> ValidDigitsPrefix(ds) < |ds|
    ensures err.Some? ==>
      err.value == DigitError(ds[ValidDigitsPrefix(ds)], if status then BadSurvivalDigit else BadBirthDigit)
    ensures err.None? ==> rules[..] == RunTable(status, ds, other)
  {
    for i := 0 to |ds|
      invariant forall j :: 0 <= j < i ==> IsRuleDigit(ds[j])
      invariant rules[..] == RunTable(status, ds[..i], other)
    {
      var c := ds[i];
      if !IsDecimalDigit(c) {
        assert c != '9';
        ValidDigitsPrefixAt(ds, i);
        return Some(if status then BadSurvivalDigit else BadBirthDigit);
      }
      var slot := EncodeIndex(status, DigitValue(c));
      EncodeInTable(status, DigitValue(c));
      if slot >= TableSize {
        assert c == '9';
        ValidDigitsPrefixAt(ds, i);
        return Some(SlotOutOfRange);
      }
      assert IsRuleDigit(c);
      MarkDigit(rules, ds, i, status, other);
    }
    assert ds[..|ds|] == ds;
    return None;
  }

  /** Setting the slot of digit `ds[i]` extends the table by that digit. */
  method MarkDigit(rules: array<bool>, ds: string, i: nat, status: bool, ghost other: string)
    requires i < |ds| && IsRuleDigit(ds[i])
    requires rules[..] == RunTable(status, ds[..i], other)
    modifies rules
    ensures rules[..] == RunTable(status, ds[..i + 1], other)
  {
    var c := ds[i];
    var slot := EncodeIndex(status, DigitValue(c));
    EncodeInTable(status, DigitValue(c));
    RunTableAddDigit(status, ds[..i], other, c);
    ghost var before := rules[..];
    rules[slot] := true;
    assert rules[..] == before[slot := true];
    assert ds[..i + 1] == ds[..i] + [c];
  }

  // ---------------------------------------------------------------------------
  // What a compiled table means

  /** The slot of (status, n) is set exactly when digit `n % 16` occurs in that status's run. */
  lemma SimulateMeaning(births: string, survivals: string, status: bool, n: nat)
    requires n % 16 <= 8
    ensures Simulate(LifeLike(Table(births, survivals)), status, n)
        <==> DigitChar(n % 16) in (if status then survivals else births)
  {
    DecodeEncode(status, n);
  }

  /** Repeating a digit, or reordering the digits, gives the same table. */
  lemma TableDependsOnDigitSets(b1: string, s1: string, b2: string, s2: string)
    requires forall c :: c in b1 <==> c in b2
    requires forall c :: c in s1 <==> c in s2
    ensures Table(b1, s1) == Table(b2, s2)
  {
  }

  /**
   * Every string made of `b` or `B`, digits 0..8, `/`, `s` or `S`, digits 0..8 compiles, and to the table of its two digit
   * runs (the source's property test uses `B[0-8]{0,8}/S[0-8]{0,8}`).
   */
  lemma ValidRuleCompiles(lb: char, births: string, ls: char, survivals: string)
    requires lb == 'b' || lb == 'B'
    requires ls == 's' || ls == 'S'
    requires forall j :: 0 <= j < |births| ==> IsRuleDigit(births[j])
    requires forall j :: 0 <= j < |survivals| ==> IsRuleDigit(survivals[j])
    ensures Compile([lb] + births + ['/', ls] + survivals) == Ok(LifeLike(Table(births, survivals)))
  {
    var def := [lb] + births + ['/', ls] + survivals;
    var k := |births| + 1;
    assert def[..k] == [lb] + births;
    assert def[k] == '/';
    assert '/' !in def[..k] by {
      forall j | 0 <= j < k ensures def[..k][j] != '/' {
        if j > 0 {
          assert def[..k][j] == births[j - 1];
        }
      }
    }
    assert FindSlash(def) == Some(k);
    assert def[k + 1..] == [ls] + survivals;
    assert IsAscii(def) by {
      forall j | 0 <= j < |def| ensures def[j] as int < 128 {
        if 0 < j < k {
          assert def[j] == births[j - 1];
        } else if j > k + 1 {
          assert def[j] == survivals[j - k - 2];
        }
      }
    }
    assert ([lb] + births)[1..] == births;
    assert ([ls] + survivals)[1..] == survivals;
  }

  /** `def` is a prefix letter, rule digits, a `/` at `k`, a prefix letter, rule digits. */
  predicate RuleShapeAt(def: string, k: nat) {
    0 < k && k + 1 < |def| && def[k] == '/'
    && (def[0] == 'b' || def[0] == 'B') && (def[k + 1] == 's' || def[k + 1] == 'S')
    && (forall j :: 0 < j < k ==> IsRuleDigit(def[j]))
    && (forall j :: k + 1 < j < |def| ==> IsRuleDigit(def[j]))
  }

  /**
   * Conversely, a string that compiles has that shape: a `b`/`B`, rule digits, the only
   * `/`, an `s`/`S`, rule digits.
   */
  lemma CompiledRuleShape(def: string)
    requires Compile(def).Ok?
    ensures exists k :: RuleShapeAt(def, k)
  {
    var k := FindSlash(def).value;
    var b, s := def[..k], def[k + 1..];
    assert HasPrefix(b, 'b', 'B') && HasPrefix(s, 's', 'S');
    assert ValidDigitsPrefix(b[1..]) == |b[1..]|;
    assert ValidDigitsPrefix(s[1..]) == |s[1..]|;
    forall j | 0 < j < k ensures IsRuleDigit(def[j]) {
      assert def[j] == b[1..][j - 1];
    }
    forall j | k + 1 < j < |def| ensures IsRuleDigit(def[j]) {
      assert def[j] == s[1..][j - k - 2];
    }
    assert def[k] == '/' && def[k + 1] == s[0];
    assert RuleShapeAt(def, k);
  }

  /**
   * The split is at the first `/`, so a second one lands in the survival run and is
   * rejected as a non-digit.
   */
  lemma ExtraSlashRejected(def: string, i: nat, j: nat)
    requires i < j < |def| && def[i] == '/' && def[j] == '/'
    ensures Compile(def).Err?
  {
    if Compile(def).Ok? {
      CompiledRuleShape(def);
      var k :| RuleShapeAt(def, k);
      assert !IsRuleDigit(def[i]) && !IsRuleDigit(def[j]);
    }
  }

  /** Each check of `new`, in the order the source makes them. */
  lemma CompileErrors(def: string)
    ensures !IsAscii(def) ==> Compile(def) == Err(NotAscii)
    ensures IsAscii(def) && '/' !in def ==> Compile(def) == Err(NoSeparator)
    ensures IsAscii(def) && '/' in def && !(def[0] == 'b' || def[0] == 'B')
      ==> Compile(def) == Err(MissingBirthPrefix)
    ensures IsAscii(def) && '/' in def && (def[0] == 'b' || def[0] == 'B')
      && !HasPrefix(def[FindSlash(def).value + 1..], 's', 'S')
      ==> Compile(def) == Err(MissingSurvivalPrefix)
    ensures Compile(def) == Err(SlotOutOfRange) ==> '9' in def
  {
    if IsAscii(def) && '/' in def {
      var k := FindSlash(def).value;
      if k > 0 {
        assert def[..k][0] == def[0];
      }
    }
    if Compile(def) == Err(SlotOutOfRange) {
      var k := FindSlash(def).value;
      var b, s := def[..k][1..], def[k + 1..][1..];
      var kb := ValidDigitsPrefix(b);
      if kb < |b| {
        assert b[kb] == def[kb + 1];
      } else {
        var ks := ValidDigitsPrefix(s);
        assert s[ks] == def[k + 2 + ks];
      }
    }
  }

  /**
   * A character of a digit run that is not a digit 0..8 is an error of that run (or,
   * for a `9`, the out-of-range slot); the birth run is checked first.
   */
  lemma CompileRunsErrors(births: string, survivals: string, j: nat)
    ensures j < |births| && !IsRuleDigit(births[j]) ==>
      CompileRuns(births, survivals) in {Err(BadBirthDigit), Err(SlotOutOfRange)}
    ensures (forall i :: 0 <= i < |births| ==> IsRuleDigit(births[i])) && j < |survivals| && !IsRuleDigit(survivals[j])
      ==> CompileRuns(births, survivals) in {Err(BadSurvivalDigit), Err(SlotOutOfRange)}
  {
    if j < |births| && !IsRuleDigit(births[j]) {
      assert ValidDigitsPrefix(births) <= j;
    }
    if (forall i :: 0 <= i < |births| ==> IsRuleDigit(births[i])) && j < |survivals| && !IsRuleDigit(survivals[j]) {
      assert ValidDigitsPrefix(survivals) <= j;
    }
  }

  /** "B3/S23" compiles to the table of births on 3 and survivals on 2 and 3. */
  lemma ConwayCompiles()
    ensures Compile("B3/S23") == Ok(LifeLike(Table("3", "23")))
  {
    var def := ['B'] + "3" + ['/', 'S'] + "23";
    ValidRuleCompiles('B', "3", 'S', "23");
    assert |def| == 6 && def[0] == 'B' && def[1] == '3' && def[2] == '/';
    assert def[3] == 'S' && def[4] == '2' && def[5] == '3';
    assert def == "B3/S23";
  }

  /** The "B3/S23" table agrees with `simulate_with_logic` on every status and count 0..8. */
  lemma ConwayTableMatchesLogic(status: bool, n: nat)
    requires n <= 8
    ensures Simulate(LifeLike(Table("3", "23")), status, n) == SimulateWithLogic(status, n)
  {
    SimulateMeaning("3", "23", status, n);
    var c := DigitChar(n);
    assert c as int == '0' as int + n;
    assert c in "23" <==> c == '2' || c == '3';
    assert c in "3" <==> c == '3';
  }
}
