/**
 * The Patient record of PM_App/models.py and the patient-ID rule of
 * Patient.save: an ID is "PT-2026" followed by the next number written in
 * decimal and left-padded with zeros to four digits (Python's zfill(4)).
 */
module Models {
  import opened Wrappers

  /** The stored columns of a Patient other than its primary key and patient_id. */
  datatype PatientData = PatientData(
    firstname: string,
    middlename: Option<string>,
    lastname: string,
    address: string,
    birthdate: string,
    age: int,
    gender: string,
    contactNumber: string,
    bloodPressure: Option<string>,
    weight: Option<real>,
    height: Option<real>,
    profileImage: Option<string>)

  const IdPrefix: string := "PT-2026"

  predicate IsDigit(c: char) {
    '0' <= c <= '9'
  }

  predicate IsDigits(s: string) {
    forall i :: 0 <= i < |s| ==> IsDigit(s[i])
  }

  function DigitChar(d: nat): (c: char)
    requires d < 10
    ensures IsDigit(c) && c as int - '0' as int == d
  {
    ('0' as int + d) as char
  }

  /** Python's str(n) for a non-negative integer: its decimal digits, without leading zeros. */
  function Decimal(n: nat): (s: string)
    ensures s != [] && IsDigits(s)
    ensures |s| > 1 ==> s[0] != '0'
    decreases n
  {
    if n < 10 then [DigitChar(n)] else Decimal(n / 10) + [DigitChar(n % 10)]
  }

  /** The number a string of decimal digits denotes (leading zeros allowed). */
  function DigitsValue(s: string): nat
    requires IsDigits(s)
  {
    if s == [] then 0 else DigitsValue(s[..|s| - 1]) * 10 + (s[|s| - 1] as int - '0' as int)
  }

  function Zeros(k: nat): (z: string)
    ensures |z| == k && IsDigits(z)
    ensures forall i :: 0 <= i < k ==> z[i] == '0'
  {
    seq(k, _ => '0')
  }

  /** Python's str.zfill(width): left-pads with '0' to `width` characters, after a leading sign; never truncates. */
  function ZFill(s: string, width: nat): (r: string)
    ensures |r| == if |s| >= width then |s| else width
    ensures |s| >= width ==> r == s
    ensures |s| < width && (s == [] || (s[0] != '+' && s[0] != '-')) ==>
      r[width - |s|..] == s && forall i :: 0 <= i < width - |s| ==> r[i] == '0'
    ensures |s| < width && s != [] && (s[0] == '+' || s[0] == '-') ==>
      r[0] == s[0] && r[width - |s| + 1..] == s[1..] && forall i :: 1 <= i <= width - |s| ==> r[i] == '0'
  {
    if |s| >= width then s
    else if s != [] && (s[0] == '+' || s[0] == '-') then [s[0]] + Zeros(width - |s|) + s[1..]
    else Zeros(width - |s|) + s
  }

  /** The patient ID for a given number: f"PT-2026{str(n).zfill(4)}". */
  function FormatPatientId(n: nat): (id: string)
    ensures |id| >= 11 && id[..7] == IdPrefix
  {
    IdPrefix + ZFill(Decimal(n), 4)
  }

  /** `last_patient.id + 1 if last_patient else 1`, where `last` is the largest primary key stored, if any. */
  function NextNumber(last: Option<nat>): (n: nat)
    ensures n >= 1
    ensures last.Some? ==> n > last.value
  {
    match last
    case Some(id) => id + 1
    case None => 1
  }

  /** zfill on a string of digits: the digits, preceded by exactly the zeros needed to reach the width. */
  lemma ZFillDigits(s: string, width: nat)
    requires IsDigits(s)
    ensures |ZFill(s, width)| == if |s| >= width then |s| else width
    ensures ZFill(s, width) == Zeros(|ZFill(s, width)| - |s|) + s
  {
    if |s| >= width {
      assert Zeros(0) + s == s;
    } else if s != [] {
      assert IsDigit(s[0]);
    }
  }

  lemma {:induction false} DecimalValue(n: nat)
    ensures DigitsValue(Decimal(n)) == n
    decreases n
  {
    if n >= 10 {
      var d := Decimal(n / 10);
      var s := d + [DigitChar(n % 10)];
      assert s[..|s| - 1] == d;
      DecimalValue(n / 10);
    } else {
      assert Decimal(n)[..0] == [];
    }
  }

  /** Leading zeros do not change the number a digit string denotes. */
  lemma {:induction false} LeadingZerosValue(k: nat, s: string)
    requires IsDigits(s)
    ensures DigitsValue(Zeros(k) + s) == DigitsValue(s)
    decreases |s|, k
  {
    if s == [] {
      assert Zeros(k) + s == Zeros(k);
      if k > 0 {
        assert Zeros(k)[..k - 1] == Zeros(k - 1);
        LeadingZerosValue(k - 1, []);
        assert Zeros(k - 1) + [] == Zeros(k - 1);
      }
    } else {
      var t := Zeros(k) + s;
      assert t[..|t| - 1] == Zeros(k) + s[..|s| - 1];
      LeadingZerosValue(k, s[..|s| - 1]);
    }
  }

  /** The digits after "PT-2026" read back as the number the ID was made from. */
  lemma PatientIdNumber(n: nat)
    ensures |FormatPatientId(n)| >= 11
    ensures FormatPatientId(n)[..7] == IdPrefix
    ensures IsDigits(FormatPatientId(n)[7..])
    ensures DigitsValue(FormatPatientId(n)[7..]) == n
  {
    var d := Decimal(n);
    ZFillDigits(d, 4);
    var z := ZFill(d, 4);
    assert FormatPatientId(n)[7..] == z;
    LeadingZerosValue(|z| - |d|, d);
    DecimalValue(n);
  }

  /** Distinct numbers give distinct patient IDs. */
  lemma FormatPatientIdInjective(a: nat, b: nat)
    requires FormatPatientId(a) == FormatPatientId(b)
    ensures a == b
  {
    PatientIdNumber(a);
    PatientIdNumber(b);
  }

  /** A number below 10^k has at most k decimal digits. */
  lemma {:induction false} DecimalShort(n: nat, k: nat, bound: nat)
    requires k >= 1 && n < bound
    requires bound == Pow10(k)
    ensures |Decimal(n)| <= k
    decreases k
  {
    if n >= 10 {
      assert k != 1;
      assert n / 10 < Pow10(k - 1);
      DecimalShort(n / 10, k - 1, Pow10(k - 1));
    }
  }

  function Pow10(k: nat): (p: nat)
    ensures p >= 1
  {
    if k == 0 then 1 else 10 * Pow10(k - 1)
  }

  /**
   * For the numbers 1..9999 the ID has exactly eleven characters; beyond
   * that it grows, keeping every digit (zfill never truncates).
   */
  lemma PatientIdLength(n: nat)
    ensures n < 10000 ==> |FormatPatientId(n)| == 11
    ensures n >= 10000 ==> FormatPatientId(n) == IdPrefix + Decimal(n)
  {
    var d := Decimal(n);
    ZFillDigits(d, 4);
    if n < 10000 {
      assert Pow10(4) == 10000;
      DecimalShort(n, 4, 10000);
    } else {
      assert |d| >= 5 by {
        if |d| <= 4 { DecimalLong(n, |d|); }
      }
    }
  }

  /** A number with at most k digits is below 10^k. */
  lemma {:induction false} DecimalLong(n: nat, k: nat)
    requires |Decimal(n)| <= k
    ensures n < Pow10(k)
    decreases n
  {
    if n >= 10 {
      assert |Decimal(n / 10)| <= k - 1;
      DecimalLong(n / 10, k - 1);
    } else {
      assert k >= 1;
      assert Pow10(k) == 10 * Pow10(k - 1);
    }
  }

  /**
   * When `last` is the largest primary key in the table (None for an empty
   * table), the number save() uses is larger than every stored key, so the
   * ID it builds differs from the ID built from any stored key.
   */
  lemma NextIdIsNew(keys: set<nat>, last: Option<nat>)
    requires last.None? ==> keys == {}
    requires last.Some? ==> last.value in keys && forall k :: k in keys ==> k <= last.value
    ensures forall k :: k in keys ==> FormatPatientId(NextNumber(last)) != FormatPatientId(k)
  {
    forall k | k in keys ensures FormatPatientId(NextNumber(last)) != FormatPatientId(k) {
      if FormatPatientId(NextNumber(last)) == FormatPatientId(k) {
        FormatPatientIdInjective(NextNumber(last), k);
      }
    }
  }

  /** A Patient row as the ORM holds it in memory. */
  class Patient {
    var patientId: string
    var data: PatientData

    constructor (patientId: string, data: PatientData)
      ensures this.patientId == patientId && this.data == data
    {
      this.patientId := patientId;
      this.data := data;
    }

    /**
     * Patient.save: an empty patient_id is replaced by the ID built from
     * NextNumber(last), where `last` is the primary key of the row that
     * Patient.objects.order_by('-id').first() returns; a non-empty one is
     * kept.  The write to the database is not modelled.
     */
    method Save(last: Option<nat>)
      modifies this
      ensures data == old(data)
      ensures old(patientId) != "" ==> patientId == old(patientId)
      ensures old(patientId) == "" ==> patientId == FormatPatientId(NextNumber(last))
    {
      if patientId == "" {
        var nextNumber := NextNumber(last);
        patientId := FormatPatientId(nextNumber);
      }
    }
  }
}
