/** A rental customer (`Customer`, table `customers`), identified by a
    unique phone number, and the phone-number validator. */
module Customers {
  import opened Wrappers
  import opened Text
  import Ordering

  datatype Customer = Customer(phoneNumber: string)

  /** The `max_length` of the phone-number column. */
  const PhoneMaxLength: nat := 15

  /** Whether the whole of `s` matches the pattern `\d{lo,hi}`: consumes one
      digit at a time, lowering both bounds. */
  function MatchDigitRun(s: string, lo: nat, hi: nat): bool
    decreases |s|
  {
    if s == [] then lo == 0
    else hi > 0 && IsDigit(s[0]) && MatchDigitRun(s[1..], if lo > 0 then lo - 1 else 0, hi - 1)
  }

  /** `\d{lo,hi}` matches exactly the digit strings of length `lo` to `hi`. */
  lemma {:induction false} MatchDigitRunMeaning(s: string, lo: nat, hi: nat)
    ensures MatchDigitRun(s, lo, hi) <==> AllDigits(s) && lo <= |s| <= hi
    decreases |s|
  {
    if s != [] && hi > 0 {
      MatchDigitRunMeaning(s[1..], if lo > 0 then lo - 1 else 0, hi - 1);
      if AllDigits(s[1..]) && IsDigit(s[0]) {
        forall k | 0 <= k < |s| ensures IsDigit(s[k]) {
          if k > 0 { assert s[k] == s[1..][k - 1]; }
        }
      }
      if AllDigits(s) {
        assert forall k :: 0 <= k < |s[1..]| ==> s[1..][k] == s[k + 1];
      }
    }
  }

  /** Python's `re.search(r'^\d{10,15}$', s)`: without the MULTILINE flag
      `$` matches at the very end and also just before a final newline. */
  function PhoneRegexAccepts(s: string): bool
  {
    MatchDigitRun(s, 10, 15) || (|s| >= 1 && s[|s| - 1] == '\n' && MatchDigitRun(s[..|s| - 1], 10, 15))
  }

  /** The phone field's validators as written: the regex and `max_length`. */
  function PhoneAcceptedAsWritten(s: string): (b: bool)
    ensures b <==> |s| <= PhoneMaxLength && (PhoneValid(s) || (|s| >= 1 && s[|s| - 1] == '\n' && PhoneValid(s[..|s| - 1])))
  {
    PhoneRegexAccepts(s) && |s| <= PhoneMaxLength
  }

  /** The validators as written accept eleven characters of which the last
      is a newline. */
  lemma TrailingNewlineAccepted()
    ensures PhoneAcceptedAsWritten("1234567890\n")
    ensures !AllDigits("1234567890\n")
  {
    var s := "1234567890\n";
    var t := "1234567890";
    assert s[..|s| - 1] == t;
    assert AllDigits(t);
    MatchDigitRunMeaning(t, 10, 15);
    assert !IsDigit(s[10]);
  }

  /** The rule the validator's message states ("10-15 digits"), which is the
      regex anchored at the very end (`\Z`). */
  function PhoneValid(s: string): (b: bool)
    ensures b <==> AllDigits(s) && 10 <= |s| <= 15
  {
    MatchDigitRunMeaning(s, 10, 15);
    MatchDigitRun(s, 10, 15)
  }

  /** Length bounds alone reject a phone; so does any non-digit. */
  lemma PhoneValidRejects(s: string, k: nat)
    ensures |s| < 10 || |s| > PhoneMaxLength ==> !PhoneValid(s)
    ensures k < |s| && !IsDigit(s[k]) ==> !PhoneValid(s)
  {
  }

  /** `phone_number` is unique: no two customers share a phone. */
  predicate UniquePhones(cs: seq<Customer>)
  {
    forall i, j :: 0 <= i < j < |cs| ==> cs[i].phoneNumber != cs[j].phoneNumber
  }

  /** `Customer.objects.get(phone_number=phone)`: the id of the customer with
      that phone, or nothing (`DoesNotExist`). */
  function FindByPhone(cs: seq<Customer>, phone: string): (r: Option<nat>)
    ensures r.Some? ==> r.value < |cs| && cs[r.value].phoneNumber == phone
    ensures r.None? <==> forall i :: 0 <= i < |cs| ==> cs[i].phoneNumber != phone
  {
    var holds := (i: nat) => i < |cs| && cs[i].phoneNumber == phone;
    var r := Ordering.Find(|cs|, holds);
    assert (forall i :: 0 <= i < |cs| ==> cs[i].phoneNumber != phone) ==> r.None? by {
      if forall i :: 0 <= i < |cs| ==> cs[i].phoneNumber != phone {
        assert forall k: nat :: k < |cs| ==> !holds(k);
      }
    }
    assert r.None? ==> forall i :: 0 <= i < |cs| ==> cs[i].phoneNumber != phone by {
      if r.None? {
        forall i | 0 <= i < |cs| ensures cs[i].phoneNumber != phone {
          assert !holds(i);
        }
      }
    }
    r
  }

  /** With unique phones the lookup finds the one customer holding it. */
  lemma FindByPhoneUnique(cs: seq<Customer>, i: nat)
    requires UniquePhones(cs)
    requires i < |cs|
    ensures FindByPhone(cs, cs[i].phoneNumber) == Some(i)
  {
  }

  /** `get_or_create(phone_number=phone)`: the customers afterwards and the
      id of the one holding `phone`, created at the end when missing. */
  function GetOrCreate(cs: seq<Customer>, phone: string): (r: (seq<Customer>, nat))
    ensures r.1 < |r.0| && r.0[r.1].phoneNumber == phone
    ensures FindByPhone(cs, phone).Some? ==> r.0 == cs && r.1 == FindByPhone(cs, phone).value
    ensures FindByPhone(cs, phone).None? ==> r.0 == cs + [Customer(phone)] && r.1 == |cs|
    ensures UniquePhones(cs) ==> UniquePhones(r.0)
  {
    match FindByPhone(cs, phone)
    case Some(i) => (cs, i)
    case None => (cs + [Customer(phone)], |cs|)
  }
}
