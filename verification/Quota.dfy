/** Editing a bucket quota through a unit selector without losing a byte. */
module Quota {
  import opened Wrappers

  const MAX_SAFE: nat := 0x1F_FFFF_FFFF_FFFF

  const MULTIPLIERS: seq<nat> :=
    [1, 1000, 1000_000, 1000_000_000, 1000_000_000_000, 1000_000_000_000_000]

  /** Index into the units B, kB, MB, GB, TB, PB. */
  type Unit = u: nat | u < 6

  const GB: Unit := 3

  // ------------------------------------------------------------------- numbers

  /** `String(n)` of a whole number. */
  function Decimal(n: nat): string {
    if n < 10 then [(48 + n) as char] else Decimal(n / 10) + [(48 + n % 10) as char]
  }

  predicate IsDigits(s: string) {
    s != "" && forall c :: c in s ==> '0' <= c <= '9'
  }

  function DigitValue(c: char): nat {
    if '0' <= c <= '9' then c as int - 48 else 0
  }

  /** The number a string of digits writes. */
  function Numeral(s: string): nat {
    if s == "" then 0 else Numeral(s[..|s| - 1]) * 10 + DigitValue(s[|s| - 1])
  }

  predicate IsBlank(c: char) {
    c == ' ' || c == '\t' || c == '\n' || c == '\r' || c as int == 11 || c as int == 12 || c as int == 0xA0
    || c as int == 0xFEFF || c as int == 0x1680 || 0x2000 <= c as int <= 0x200A || c as int == 0x2028
    || c as int == 0x2029 || c as int == 0x202F || c as int == 0x205F || c as int == 0x3000
  }

  /** `trim`. */
  function Trimmed(s: string): string
    decreases |s|
  {
    if s == "" then ""
    else if IsBlank(s[0]) then Trimmed(s[1..])
    else if IsBlank(s[|s| - 1]) then Trimmed(s[..|s| - 1])
    else s
  }

  lemma DigitsAreTrimmed(s: string)
    requires IsDigits(s)
    ensures Trimmed(s) == s
  {
    assert s[0] in s && s[|s| - 1] in s;
  }

  lemma {:induction false} DecimalReadsBack(n: nat)
    ensures IsDigits(Decimal(n)) && Numeral(Decimal(n)) == n
  {
    if n >= 10 {
      DecimalReadsBack(n / 10);
      var front, last := Decimal(n / 10), (48 + n % 10) as char;
      assert Decimal(n) == front + [last] && (front + [last])[..|front|] == front;
    } else {
      assert Decimal(n)[..0] == "";
    }
  }

  /** It is written without leading zeros. */
  lemma {:induction false} DecimalIsShort(n: nat)
    ensures Decimal(n)[0] == '0' <==> n == 0
    ensures n < 10 ==> |Decimal(n)| == 1
  {
    DecimalReadsBack(n);
    if n >= 10 {
      DecimalReadsBack(n / 10);
      DecimalIsShort(n / 10);
    }
  }

  // --------------------------------------------------------------------- units

  /** `exactUnit`: the largest unit that divides the count, bytes for nothing. */
  method ExactUnit(bytes: nat) returns (chosen: Unit)
    ensures chosen == LargestExact(bytes)
  {
    chosen := 0;
    if bytes == 0 {
      return;
    }
    for i := 0 to |MULTIPLIERS|
      invariant bytes % MULTIPLIERS[chosen] == 0 && (i == 0 ==> chosen == 0)
      invariant forall u: nat :: u < i && bytes % MULTIPLIERS[u] == 0 ==> u <= chosen
    {
      if bytes % MULTIPLIERS[i] == 0 {
        chosen := i;
      }
    }
    LargestIsUnique(bytes, chosen);
  }

  ghost predicate IsLargestExact(bytes: nat, unit: Unit) {
    bytes % MULTIPLIERS[unit] == 0 && forall u: Unit :: bytes % MULTIPLIERS[u] == 0 ==> u <= unit
  }

  function LargestExact(bytes: nat): Unit {
    if bytes == 0 then 0
    else if bytes % MULTIPLIERS[5] == 0 then 5
    else if bytes % MULTIPLIERS[4] == 0 then 4
    else if bytes % MULTIPLIERS[3] == 0 then 3
    else if bytes % MULTIPLIERS[2] == 0 then 2
    else if bytes % MULTIPLIERS[1] == 0 then 1
    else 0
  }

  lemma LargestIsUnique(bytes: nat, unit: Unit)
    requires bytes > 0 && bytes % MULTIPLIERS[unit] == 0
    requires forall u: nat :: u < 6 && bytes % MULTIPLIERS[u] == 0 ==> u <= unit
    ensures unit == LargestExact(bytes)
  {
    assert bytes % MULTIPLIERS[LargestExact(bytes)] == 0;
  }

  function SplitBytes(bytes: nat): (nat, Unit) {
    var unit := LargestExact(bytes);
    (bytes / MULTIPLIERS[unit], unit)
  }

  /** `toBytes`: whole amounts only, and nothing the number type cannot hold exactly. */
  function ToBytes(value: string, unit: Unit): Option<nat> {
    var trimmed := Trimmed(value);
    if !IsDigits(trimmed) then None
    else
      var amount := Numeral(trimmed);
      if amount > MAX_SAFE then None
      else if amount * MULTIPLIERS[unit] > MAX_SAFE then None
      else Some(amount * MULTIPLIERS[unit])
  }

  function Thousands(k: nat): nat {
    if k == 0 then 1 else 1000 * Thousands(k - 1)
  }

  /** Each unit is a thousand of the one before it. */
  lemma UnitsAreThousands(unit: Unit)
    ensures MULTIPLIERS[unit] == Thousands(unit)
  {
    assert Thousands(1) == 1000 && Thousands(2) == 1000_000;
    assert Thousands(3) == 1000_000_000 && Thousands(4) == 1000_000_000_000;
    assert Thousands(5) == 1000_000_000_000_000;
  }

  lemma {:induction false} TrimmedExactly(s: string) returns (front: string, back: string)
    ensures s == front + Trimmed(s) + back
    ensures forall c :: c in front + back ==> IsBlank(c)
    ensures Trimmed(s) != "" ==> !IsBlank(Trimmed(s)[0]) && !IsBlank(Trimmed(s)[|Trimmed(s)| - 1])
    decreases |s|
  {
    front, back := "", "";
    if s == "" {
    } else if IsBlank(s[0]) {
      front, back := TrimmedExactly(s[1..]);
      front := [s[0]] + front;
    } else if IsBlank(s[|s| - 1]) {
      front, back := TrimmedExactly(s[..|s| - 1]);
      back := back + [s[|s| - 1]];
    }
  }

  /**
   * Text and unit make a byte count exactly when the text, blanks around it
   * aside, is a whole number, and that many thousands of thousands of bytes are
   * a safe integer.
   */
  lemma ToBytesExactly(value: string, unit: Unit, bytes: nat)
    ensures ToBytes(value, unit) == Some(bytes) <==>
            && IsDigits(Trimmed(value)) && bytes == Numeral(Trimmed(value)) * Thousands(unit)
            && bytes <= 9007199254740991
  {
    UnitsAreThousands(unit);
    MultiplierIsPositive(unit);
    var amount := Numeral(Trimmed(value));
    assert amount * MULTIPLIERS[unit] >= amount;
  }

  lemma MultiplierIsPositive(unit: Unit)
    ensures MULTIPLIERS[unit] >= 1
  {
  }

  lemma QuotientTimes(bytes: nat, m: nat)
    requires m >= 1 && bytes % m == 0
    ensures bytes / m * m == bytes && bytes / m <= bytes
  {
    assert bytes == bytes / m * m + bytes % m;
    assert bytes / m * m >= bytes / m;
  }

  /** A stored count, shown in its largest exact unit, reads back as itself. */
  lemma SplitReadsBack(bytes: nat)
    requires bytes <= MAX_SAFE
    ensures ToBytes(Decimal(SplitBytes(bytes).0), SplitBytes(bytes).1) == Some(bytes)
    ensures bytes == 0 ==> SplitBytes(bytes) == (0, 0)
  {
    var (value, unit) := SplitBytes(bytes);
    MultiplierIsPositive(unit);
    QuotientTimes(bytes, MULTIPLIERS[unit]);
    DecimalReadsBack(value);
    DigitsAreTrimmed(Decimal(value));
  }

  /** Whatever was typed, an accepted positive count is shown again in the largest unit that divides it. */
  lemma AcceptedIsShownExactly(value: string, unit: Unit)
    requires ToBytes(value, unit).Some? && ToBytes(value, unit).value > 0
    ensures var bytes := ToBytes(value, unit).value;
            && bytes <= MAX_SAFE && IsLargestExact(bytes, SplitBytes(bytes).1) && unit <= SplitBytes(bytes).1
            && SplitBytes(bytes).0 * MULTIPLIERS[SplitBytes(bytes).1] == bytes
  {
    var bytes := ToBytes(value, unit).value;
    var m := MULTIPLIERS[unit];
    MultiplierIsPositive(unit);
    MultipleDivides(Numeral(Trimmed(value)), unit);
    assert bytes % m == 0;
    QuotientTimes(bytes, MULTIPLIERS[LargestExact(bytes)]);
    LargestIsLargest(bytes);
  }

  lemma TimesAtLeast(d: int, m: int)
    requires m >= 1
    ensures (d >= 1 ==> d * m >= m) && (d <= -1 ==> d * m <= -m)
  {
  }

  lemma ProductDivides(a: nat, m: nat)
    requires m >= 1
    ensures a * m % m == 0
  {
    var q, r := a * m / m, a * m % m;
    assert a * m == q * m + r;
    assert (a - q) * m == r;
    TimesAtLeast(a - q, m);
  }

  lemma MultipleDivides(a: nat, unit: Unit)
    ensures a * MULTIPLIERS[unit] % MULTIPLIERS[unit] == 0
  {
    MultiplierIsPositive(unit);
    ProductDivides(a, MULTIPLIERS[unit]);
  }

  lemma LargestIsLargest(bytes: nat)
    requires bytes > 0
    ensures IsLargestExact(bytes, LargestExact(bytes))
  {
    forall u: Unit | bytes % MULTIPLIERS[u] == 0 ensures u <= LargestExact(bytes) {
      assert u == 0 || u == 1 || u == 2 || u == 3 || u == 4 || u == 5;
    }
  }

  // ---------------------------------------------------------------------- form

  /** A limit, or none. */
  type Limit = Option<nat>

  datatype BucketQuota = BucketQuota(bytes: Limit, objects: Limit)

  datatype LimitDraft = LimitDraft(limited: bool, value: string, unit: Unit)

  function ByteDraft(quota: BucketQuota): LimitDraft {
    match quota.bytes
    case None => LimitDraft(false, "", GB)
    case Some(bytes) => LimitDraft(true, Decimal(SplitBytes(bytes).0), SplitBytes(bytes).1)
  }

  function ObjectDraft(quota: BucketQuota): LimitDraft {
    match quota.objects
    case None => LimitDraft(false, "", 0)
    case Some(objects) => LimitDraft(true, Decimal(objects), 0)
  }

  /** Reading digits as a number is exact up to the largest safe integer; beyond it nothing is known. */
  ghost predicate Faithful(number: nat -> nat) {
    forall n: nat {:trigger number(n)} :: n <= MAX_SAFE ==> number(n) == n
  }

  /** `submit`: the quota sent, or `None` when a problem is shown instead. */
  method Submit(number: nat -> nat, bytes: LimitDraft, objects: LimitDraft) returns (sent: Option<BucketQuota>)
    ensures sent == Submitted(number, bytes, objects)
  {
    var byteLimit: Limit := None;
    if bytes.limited {
      var exact := ToBytes(bytes.value, bytes.unit);
      if exact.None? {
        return None;
      }
      byteLimit := exact;
    }
    var objectLimit: Limit := None;
    if objects.limited {
      if !IsDigits(Trimmed(objects.value)) {
        return None;
      }
      objectLimit := Some(number(Numeral(Trimmed(objects.value))));
    }
    sent := Some(BucketQuota(byteLimit, objectLimit));
  }

  function Submitted(number: nat -> nat, bytes: LimitDraft, objects: LimitDraft): Option<BucketQuota> {
    if bytes.limited && ToBytes(bytes.value, bytes.unit).None? then None
    else if objects.limited && !IsDigits(Trimmed(objects.value)) then None
    else
      Some(BucketQuota(if bytes.limited then ToBytes(bytes.value, bytes.unit) else None,
                       if objects.limited then Some(number(Numeral(Trimmed(objects.value)))) else None))
  }

  /**
   * An untouched form sends back the identical quota exactly when the byte
   * limit is a safe integer and the object limit is read exactly, which every
   * safe integer is.
   */
  lemma UntouchedIsUnchanged(number: nat -> nat, quota: BucketQuota)
    requires Faithful(number)
    ensures Submitted(number, ByteDraft(quota), ObjectDraft(quota)) == Some(quota) <==>
            && (quota.bytes.Some? ==> quota.bytes.value <= MAX_SAFE)
            && (quota.objects.Some? ==> number(quota.objects.value) == quota.objects.value)
    ensures (quota.bytes.Some? ==> quota.bytes.value <= MAX_SAFE)
            && (quota.objects.Some? ==> quota.objects.value <= MAX_SAFE) ==>
              Submitted(number, ByteDraft(quota), ObjectDraft(quota)) == Some(quota)
  {
    if quota.bytes.Some? && quota.bytes.value <= MAX_SAFE {
      SplitReadsBack(quota.bytes.value);
    }
    if quota.objects.Some? {
      DecimalReadsBack(quota.objects.value);
      DigitsAreTrimmed(Decimal(quota.objects.value));
    }
  }

  /** What a limit that is switched on comes to; nothing for one that is off. */
  ghost predicate Means(limited: bool, read: Option<nat>, limit: Limit) {
    if limited then read.Some? && limit == read else limit.None?
  }

  /** The number of objects a text stands for, if it is a whole number. */
  function ObjectCount(number: nat -> nat, value: string): Option<nat> {
    if IsDigits(Trimmed(value)) then Some(number(Numeral(Trimmed(value)))) else None
  }

  /** A quota is sent exactly when every limit that is switched on reads as one, and then it is of those limits. */
  lemma SentExactly(number: nat -> nat, bytes: LimitDraft, objects: LimitDraft, quota: BucketQuota)
    ensures Submitted(number, bytes, objects) == Some(quota) <==>
            && Means(bytes.limited, ToBytes(bytes.value, bytes.unit), quota.bytes)
            && Means(objects.limited, ObjectCount(number, objects.value), quota.objects)
  {
  }
}
