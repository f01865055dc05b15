/**
 * The address book: a dictionary from contact name to `Record`, remembering the
 * order in which names were first inserted (a Python dictionary iterates in
 * that order), with insert-or-merge and the weekly birthday report.
 */
module Book {
  import opened Wrappers
  import opened Calendar
  import opened Records
  import opened Weekly

  datatype AddOutcome = ContactAdded | PhoneAdded | NoPhoneToMerge

  /** The text `add_record` returns: the fixed text for a new contact, otherwise one naming the contact. */
  function AddMessage(o: AddOutcome, name: string): (m: string)
    requires !o.NoPhoneToMerge?
    ensures m == "Contact added!" <==> o == ContactAdded
  {
    assert ("Phone added to " + name + "!")[0] == 'P';
    if o.ContactAdded? then "Contact added!" else "Phone added to " + name + "!"
  }

  class AddressBook {
    var data: map<string, Record>
    var order: seq<string>

    /**
     * Every record is filed under its own name and holds a real birthday, if
     * any, and `order` lists each key once.
     */
    ghost predicate Valid()
      reads this, data.Values
    {
      (forall k :: k in data ==> data[k].name == k && data[k].Valid())
      && (forall k :: k in data ==> k in order)
      && (forall k :: k in order ==> k in data)
      && (forall i, j :: 0 <= i < j < |order| ==> order[i] != order[j])
    }

    constructor ()
      ensures Valid() && data == map[] && order == []
    {
      data := map[];
      order := [];
    }

    /** The (name, birthday) of each record whose key is in `ks`, in the order of `ks`. */
    function EntriesOf(ks: seq<string>): (es: seq<Entry>)
      reads this, data.Values
      requires forall k :: k in ks ==> k in data
      ensures |es| == |ks|
    {
      if ks == [] then []
      else
        var k := ks[|ks| - 1];
        EntriesOf(ks[..|ks| - 1]) + [Entry(data[k].name, data[k].birthday)]
    }

    /** The `i`-th entry is the record filed under the `i`-th key. */
    lemma {:induction false} EntryAt(ks: seq<string>, i: int)
      requires forall k :: k in ks ==> k in data
      requires 0 <= i < |ks|
      ensures EntriesOf(ks)[i] == Entry(data[ks[i]].name, data[ks[i]].birthday)
    {
      if i < |ks| - 1 {
        EntryAt(ks[..|ks| - 1], i);
      }
    }

    /** The book's entries in insertion order, as `self.data.values()` yields them. */
    function Entries(): (es: seq<Entry>)
      reads this, data.Values
      requires forall k :: k in order ==> k in data
      ensures |es| == |order|
    {
      EntriesOf(order)
    }

    /** Names are keys, so no two entries share a name. */
    lemma DistinctNames()
      requires Valid()
      ensures forall i, j :: 0 <= i < j < |Entries()| ==> Entries()[i].name != Entries()[j].name
    {
      forall i, j | 0 <= i < j < |order| ensures Entries()[i].name != Entries()[j].name {
        EntryAt(order, i);
        EntryAt(order, j);
      }
    }

    /** A contact is listed under at most one weekday of the report. */
    lemma OneLinePerContact(today: Date, n: string, w1: Weekday, w2: Weekday)
      requires Valid() && ValidDate(today)
      requires n in Bucket(Entries(), today, w1) && n in Bucket(Entries(), today, w2)
      ensures w1 == w2
    {
      DistinctNames();
      OneDayPerName(Entries(), today, n, w1, w2);
    }

    /**
     * The report of a book gives up exactly in a non-leap year when some
     * contact's birthday is 29 February: the birthdays a book holds are real
     * dates, so no other date makes the year replacement fail.
     */
    lemma BookReportFails(today: Date)
      requires Valid() && ValidDate(today)
      ensures WeeklyReport(Entries(), today) == ReplaceFailed <==>
                !IsLeapYear(today.year) &&
                exists k :: k in data && data[k].birthday.Some? && LeapDay(data[k].birthday.value)
    {
      BirthdaysReal();
      ReportFails(Entries(), today);
      LeapDayKeys();
    }

    /** Every birthday among the entries is a real date. */
    lemma BirthdaysReal()
      requires Valid()
      ensures forall j :: 0 <= j < |Entries()| && Entries()[j].birthday.Some? ==> ValidDate(Entries()[j].birthday.value)
    {
      forall j | 0 <= j < |order| && Entries()[j].birthday.Some?
        ensures ValidDate(Entries()[j].birthday.value)
      {
        EntryAt(order, j);
      }
    }

    /** A contact born on 29 February is an entry born on 29 February, and back. */
    lemma LeapDayKeys()
      requires Valid()
      ensures (exists k :: k in data && data[k].birthday.Some? && LeapDay(data[k].birthday.value)) <==>
              (exists j :: 0 <= j < |Entries()| && Entries()[j].birthday.Some?
                 && LeapDay(Entries()[j].birthday.value))
    {
      var es := Entries();
      if k :| k in data && data[k].birthday.Some? && LeapDay(data[k].birthday.value) {
        var j :| 0 <= j < |order| && order[j] == k;
        EntryAt(order, j);
        assert es[j].birthday.Some? && LeapDay(es[j].birthday.value);
      }
      if j :| 0 <= j < |es| && es[j].birthday.Some? && LeapDay(es[j].birthday.value) {
        EntryAt(order, j);
        assert order[j] in data && LeapDay(data[order[j]].birthday.value);
      }
    }

    /**
     * `add_record`: a new name is inserted with the given record; a known name
     * gets the incoming record's first phone appended to its existing record.
     * With no phone to take, the merge raises before changing anything.
     */
    method AddRecord(r: Record) returns (outcome: AddOutcome)
      requires Valid() && r.Valid()
      modifies this, data.Values
      ensures Valid()
      ensures r.name !in old(data) ==>
                outcome == ContactAdded && data == old(data)[r.name := r] && order == old(order) + [r.name]
                && r.phones == old(r.phones) && r.birthday == old(r.birthday)
      ensures r.name in old(data) ==> data == old(data) && order == old(order)
      ensures r.name in old(data) && old(r.phones) == [] ==>
                outcome == NoPhoneToMerge && data[r.name].phones == old(data[r.name].phones)
      ensures r.name in old(data) && old(r.phones) != [] ==>
                outcome == PhoneAdded && data[r.name].phones == old(data[r.name].phones) + [old(r.phones)[0]]
      ensures r.name in old(data) ==> data[r.name].birthday == old(data[r.name].birthday)
      ensures forall k :: k in old(data) && k != r.name ==>
                data[k] == old(data[k]) && data[k].phones == old(data[k].phones) && data[k].birthday == old(data[k].birthday)
    {
      if r.name in data {
        if |r.phones| == 0 {
          return NoPhoneToMerge;
        }
        var existing := data[r.name];
        existing.AddPhone(r.phones[0]);
        outcome := PhoneAdded;
      } else {
        data := data[r.name := r];
        order := order + [r.name];
        outcome := ContactAdded;
      }
    }

    /** `get_birthdays_per_week` with `today` given, over the records in insertion order. */
    method GetBirthdaysPerWeek(today: Date) returns (report: Report)
      requires Valid() && ValidDate(today)
      ensures report == WeeklyReport(Entries(), today)
    {
      report := BirthdaysPerWeek(Entries(), today);
    }
  }
}
