/**
 * One contact: a name that never changes, an ordered list of phone numbers
 * (duplicates allowed) and a birthday that can be set only once.
 */
module Records {
  import opened Wrappers
  import opened Calendar
  import opened Validation

  /** Position of the first element of `s` equal to `x`. */
  function FirstIndex<T(==)>(s: seq<T>, x: T): (r: Option<nat>)
    ensures r.None? <==> x !in s
    ensures r.Some? ==> r.value < |s| && s[r.value] == x && x !in s[..r.value]
  {
    if s == [] then None
    else if s[0] == x then Some(0)
    else
      match FirstIndex(s[1..], x)
      case None => None
      case Some(i) =>
        assert s[..i + 1] == [s[0]] + s[1..][..i];
        Some(i + 1)
  }

  /** The phone list after `edit_phone(from, to)`: the first entry equal to `from`, if any, becomes `to`. */
  function EditFirst(phones: seq<string>, from: string, to: string): (r: seq<string>)
    ensures |r| == |phones|
    ensures forall i :: 0 <= i < |phones| ==>
              r[i] == if phones[i] == from && from !in phones[..i] then to else phones[i]
  {
    match FirstIndex(phones, from)
    case None => phones
    case Some(k) =>
      assert forall i :: k < i < |phones| ==> from in phones[..i] by {
        forall i | k < i < |phones| ensures from in phones[..i] {
          assert phones[..i][k] == from;
        }
      }
      phones[k := to]
  }

  datatype EditOutcome = PhoneChanged | PhoneNotFound

  datatype BirthdayOutcome = BirthdayAdded | AlreadySpecified | BirthdayRejected(guard: Guard)

  /**
   * `add_birthday` behind its guard: the guard is consulted first, and only an
   * accepted date on a record without a birthday is stored. Returns the outcome
   * and the birthday the record then has.
   */
  function SetBirthdayOnce(current: Option<Date>, text: string): (r: (BirthdayOutcome, Option<Date>))
    ensures current.Some? ==> r.1 == current
    ensures r.0 == BirthdayAdded <==> current.None? && ParseDate(text).Some?
    ensures r.0 == BirthdayAdded ==> r.1 == ParseDate(text)
    ensures r.0 != BirthdayAdded ==> r.1 == current
    ensures r.0 == AlreadySpecified <==> current.Some? && ParseDate(text).Some?
    ensures r.0 == BirthdayRejected(BadFormat) <==> !HasDateShape(text)
    ensures r.0 == BirthdayRejected(InvalidDate) <==> HasDateShape(text) && ParseDate(text).None?
    ensures r.0.BirthdayRejected? ==> r.0.guard == BirthdayGuard(text) && !r.0.guard.Accepted?
    ensures r.1.Some? ==> ValidDate(r.1.value) || r.1 == current
  {
    match BirthdayGuard(text)
    case Accepted(d) =>
      if current.None? then (BirthdayAdded, Some(d)) else (AlreadySpecified, current)
    case g => (BirthdayRejected(g), current)
  }

  /** The text `edit_phone` returns: the fixed success text exactly when the phone was changed. */
  function EditMessage(o: EditOutcome, name: string, from: string): (m: string)
    ensures m == "Phone changed!" <==> o == PhoneChanged
  {
    assert ("The record for " + name + " does not contain phone " + from)[0] == 'T';
    match o
    case PhoneChanged => "Phone changed!"
    case PhoneNotFound => "The record for " + name + " does not contain phone " + from
  }

  /** The text `add_birthday` and its guard return; each outcome has its own text. */
  function BirthdayMessage(o: BirthdayOutcome, name: string): (m: string)
    requires o.BirthdayRejected? ==> !o.guard.Accepted?
    ensures m == "Birthday added!" <==> o == BirthdayAdded
    ensures m == "Enter birthday as DD.MM.YYYY!" <==> o == BirthdayRejected(BadFormat)
    ensures m == "Enter a valid date!" <==> o == BirthdayRejected(InvalidDate)
  {
    assert ("Cannot add! Birthday for " + name + " is already specified!")[0] == 'C';
    match o
    case BirthdayAdded => "Birthday added!"
    case AlreadySpecified => "Cannot add! Birthday for " + name + " is already specified!"
    case BirthdayRejected(g) => GuardMessage(g)
  }

  class Record {
    const name: string
    var phones: seq<string>
    var birthday: Option<Date>

    /** A stored birthday is always a real date: only `add_birthday` sets it, from a parsed text. */
    ghost predicate Valid()
      reads this
    {
      birthday.Some? ==> ValidDate(birthday.value)
    }

    /** `Record(name, phone)`: a phone that is absent or empty gives an empty phone list. */
    constructor (name: string, phone: Option<string>)
      ensures this.name == name
      ensures phones == if phone.Some? && phone.value != "" then [phone.value] else []
      ensures birthday == None
      ensures Valid()
    {
      this.name := name;
      phones := if phone.Some? && phone.value != "" then [phone.value] else [];
      birthday := None;
    }

    method AddPhone(phone: string)
      requires Valid()
      modifies this`phones
      ensures Valid()
      ensures phones == old(phones) + [phone]
    {
      phones := phones + [phone];
    }

    /** Scans the phones in order and rewrites the first one equal to `from`. */
    method EditPhone(from: string, to: string) returns (outcome: EditOutcome)
      requires Valid()
      modifies this`phones
      ensures Valid()
      ensures outcome == if from in old(phones) then PhoneChanged else PhoneNotFound
      ensures phones == EditFirst(old(phones), from, to)
    {
      var i := 0;
      while i < |phones|
        invariant 0 <= i <= |phones|
        invariant phones == old(phones)
        invariant from !in phones[..i]
      {
        if phones[i] == from {
          assert FirstIndex(phones, from) == Some(i) by {
            FirstMatch(phones, from, i);
          }
          phones := phones[i := to];
          return PhoneChanged;
        }
        assert phones[..i + 1] == phones[..i] + [phones[i]];
        i := i + 1;
      }
      assert phones[..i] == phones;
      return PhoneNotFound;
    }

    /** `add_birthday` with its guard: never replaces a birthday that is already set. */
    method AddBirthday(text: string) returns (outcome: BirthdayOutcome)
      requires Valid()
      modifies this`birthday
      ensures Valid()
      ensures (outcome, birthday) == SetBirthdayOnce(old(birthday), text)
    {
      var g := BirthdayGuard(text);
      if !g.Accepted? {
        return BirthdayRejected(g);
      }
      if birthday.None? {
        birthday := Some(g.date);
        outcome := BirthdayAdded;
      } else {
        outcome := AlreadySpecified;
      }
    }
  }

  /** The first match is the one with no match before it. */
  lemma FirstMatch<T>(s: seq<T>, x: T, i: nat)
    requires i < |s| && s[i] == x && x !in s[..i]
    ensures FirstIndex(s, x) == Some(i)
  {
    var r := FirstIndex(s, x);
    assert s[..r.value + 1][r.value] == x;
    assert s[..i + 1][i] == x;
  }
}
