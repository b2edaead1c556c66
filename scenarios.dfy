/** Worked uses of the contact book. The phone and book scenarios use only the
    methods' contracts; `AliceAndBob` evaluates the query function. */
module Scenarios {
  import opened Wrappers
  import opened Sequences
  import opened Calendar
  import opened Fields
  import opened Records
  import opened Birthdays
  import opened AddressBooks

  /** Two phones are kept in insertion order. */
  method AddPhonesScenario(first: PhoneNumber, second: PhoneNumber) returns (john: Record)
    ensures fresh(john) && john.phones == [first, second]
  {
    john := new Record("John");
    var ok := john.AddPhone(first);
    ok := john.AddPhone(second);
  }

  /** A nine-character phone is refused and leaves the list alone. */
  method RefusedPhoneScenario()
  {
    var jane := new Record("Jane");
    assert |"123456789"| == 9;
    var ok := jane.AddPhone("123456789");
    assert ok == Fail(InvalidPhone) && jane.phones == [];
  }

  /** `change John <phone>` edits the first phone: it is replaced and the second stays. */
  method ChangePhoneScenario(first: PhoneNumber, second: PhoneNumber, replacement: PhoneNumber)
  {
    var john := AddPhonesScenario(first, second);
    assert IndexOf(john.phones, first) == Some(0);
    var ok := john.EditPhone(john.phones[0], replacement);
    assert ok == Pass && john.phones == [replacement, second];
  }

  /** A second record under a known name replaces the first one; deleting an absent
      name does nothing. */
  method BookScenario()
  {
    var book := new AddressBook();
    var first := new Record("John");
    book.AddRecord(first);
    var second := new Record("John");
    book.AddRecord(second);
    var found := book.Find("John");
    assert found == Some(second) && book.order == ["John"];
    book.Delete("Nobody");
    assert book.data == map["John" := second];
    book.Delete("John");
    assert book.data == map[] && book.order == [];
  }

  /** On 1 June 2024, a 5 June birthday is reported and a 1 January one is not. */
  lemma AliceAndBob(micros: int)
    requires 0 <= micros < MicrosPerDay
    ensures var now := Moment(Date(2024, 6, 1), micros);
      Upcoming(now, [("Alice", Some(Date(2000, 6, 5))), ("Bob", Some(Date(2000, 1, 1)))])
        == Success([("Alice", Date(2000, 6, 5))])
  {
    var now := Moment(Date(2024, 6, 1), micros);
    var es: seq<Entry> := [("Alice", Some(Date(2000, 6, 5))), ("Bob", Some(Date(2000, 1, 1)))];
    assert Ordinal(LastDate) == 3652059;
    assert Ordinal(Date(2024, 6, 1)) == 739038;
    assert Ordinal(Date(2024, 6, 5)) == 739042;
    assert Ordinal(Date(2024, 1, 1)) == 738886;
    assert Ordinal(Date(2025, 1, 1)) == 739252;
    assert NextOccurrence(Date(2000, 6, 5), now) == Success(Date(2024, 6, 5));
    assert NextOccurrence(Date(2000, 1, 1), now) == Success(Date(2025, 1, 1));
    assert InWindow(now, Date(2024, 6, 5)) && !InWindow(now, Date(2025, 1, 1));
    assert es[..0] == [];
    assert Scan(now, es[..0]) == Success([]);
    assert es[0].1 == Some(Date(2000, 6, 5)) && es[0].0 == "Alice";
    assert NextOccurrence(es[0].1.value, now) == Success(Date(2024, 6, 5));
    assert InWindow(now, NextOccurrence(es[0].1.value, now).value);
    ScanStep(now, es, 0);
    assert Scan(now, es[..1]) == Success(Scan(now, es[..0]).value + [(es[0].0, es[0].1.value)]);
    assert Scan(now, es[..0]).value + [(es[0].0, es[0].1.value)] == [("Alice", Date(2000, 6, 5))];
    assert Scan(now, es[..1]) == Success([("Alice", Date(2000, 6, 5))]);
    ScanStep(now, es, 1);
    assert es[..2] == es;
    assert Scan(now, es) == Success([("Alice", Date(2000, 6, 5))]);
    assert WeekAheadFits(now);
  }
}
