/** The address book: records by name, kept in insertion order as a Python dict is. */
module AddressBooks {
  import opened Wrappers
  import opened Sequences
  import opened Calendar
  import opened Records
  import opened Birthdays

  class AddressBook {
    /** The records by name. */
    var data: map<string, Record>
    /** The dict's iteration order: the keys in first-insertion order. */
    var order: seq<string>

    /** Every key is the name of its record, and `order` lists each key once. */
    ghost predicate Valid()
      reads this
    {
      && (forall k :: k in data ==> data[k].name == k)
      && Distinct(order)
      && (forall k :: k in order <==> k in data)
    }

    /** The records' names and birthdays, in iteration order. */
    ghost function Entries(): (es: seq<Entry>)
      reads this, data.Values
      requires Valid()
      ensures |es| == |order|
      ensures forall j :: 0 <= j < |order| ==> es[j] == (data[order[j]].name, data[order[j]].birthday)
    {
      seq(|order|, j requires 0 <= j < |order| && order[j] in data reads this, data.Values =>
        (data[order[j]].name, data[order[j]].birthday))
    }

    constructor ()
      ensures Valid() && data == map[] && order == []
    {
      data := map[];
      order := [];
    }

    /** `add_record`: the record is stored under its name, replacing any earlier one;
        a new name goes to the end of the order, a known name keeps its place. */
    method AddRecord(r: Record)
      requires Valid()
      modifies this
      ensures Valid()
      ensures data == old(data)[r.name := r]
      ensures order == if r.name in old(data) then old(order) else old(order) + [r.name]
    {
      if r.name !in data {
        order := order + [r.name];
      }
      data := data[r.name := r];
    }

    /** `find`: the record stored under the name, or `None` when there is none. */
    method Find(name: string) returns (r: Option<Record>)
      requires Valid()
      ensures r.Some? <==> name in data
      ensures r.Some? ==> r.value == data[name] && r.value.name == name
    {
      if name in data {
        r := Some(data[name]);
      } else {
        r := None;
      }
    }

    /** `delete`: only the name's entry goes; an absent name changes nothing. */
    method Delete(name: string)
      requires Valid()
      modifies this
      ensures Valid()
      ensures data == old(data) - {name}
      ensures order == Without(old(order), name)
    {
      if name in data {
        WithoutDistinct(order, name);
        data := data - {name};
        order := Without(order, name);
      } else {
        WithoutAbsent(order, name);
      }
    }

    /** `get_upcoming_birthdays`, with the clock reading passed in as `now`. */
    method UpcomingBirthdays(now: Moment) returns (r: Result<seq<Hit>, QueryError>)
      requires Valid() && ValidMoment(now)
      ensures r == Upcoming(now, Entries())
      ensures r.Success? ==> forall h :: h in r.value ==>
        && h.0 in data && data[h.0].birthday == Some(h.1)
        && NextOccurrence(h.1, now).Success? && InWindow(now, NextOccurrence(h.1, now).value)
    {
      if !WeekAheadFits(now) {
        return Failure(DateOverflow);
      }
      ghost var es := Entries();
      var hits: seq<Hit> := [];
      var i := 0;
      while i < |order|
        invariant 0 <= i <= |order|
        invariant Scan(now, es[..i]) == Success(hits)
      {
        var record := data[order[i]];
        assert es[i] == (record.name, record.birthday);
        ScanStep(now, es, i);
        if record.birthday.Some? {
          var b := record.birthday.value;
          var next := NextOccurrence(b, now);
          if next.Failure? {
            ScanPrefixFailure(now, es, i + 1);
            return Failure(next.error);
          }
          if InWindow(now, next.value) {
            hits := hits + [(record.name, b)];
          }
        }
        i := i + 1;
      }
      assert es[..i] == es;
      r := Success(hits);
      HitsInBook(now);
    }

    /** Every reported name is a key of the book, stored with the reported birthday,
        whose next occurrence is in the window. */
    lemma HitsInBook(now: Moment)
      requires Valid() && ValidMoment(now) && Upcoming(now, Entries()).Success?
      ensures forall h :: h in Upcoming(now, Entries()).value ==>
        && h.0 in data && data[h.0].birthday == Some(h.1)
        && NextOccurrence(h.1, now).Success? && InWindow(now, NextOccurrence(h.1, now).value)
    {
      var es := Entries();
      HitsSelected(now, es);
      forall h | h in Upcoming(now, es).value
        ensures h.0 in data && data[h.0].birthday == Some(h.1)
      {
        var j :| 0 <= j < |es| && es[j] == (h.0, Some(h.1)) && Selected(now, es[j]);
        assert data[order[j]].name == order[j];
      }
    }
  }
}
