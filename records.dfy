/** A contact: a name, an ordered list of phones and an optional birthday. */
module Records {
  import opened Wrappers
  import opened Sequences
  import opened Calendar
  import opened Fields

  /** `'; '.join(phones)`. */
  function JoinPhones(ps: seq<PhoneNumber>): (r: string)
    ensures |r| == if ps == [] then 0 else 12 * |ps| - 2
  {
    if |ps| <= 1 then (if ps == [] then "" else ps[0])
    else JoinPhones(ps[..|ps| - 1]) + "; " + ps[|ps| - 1]
  }

  /** In the joined text every phone has its own twelve-character slot: the ten digits,
      then the separator, so the display lists exactly the phones, in order. */
  lemma {:induction false} JoinedPhoneSlots(ps: seq<PhoneNumber>)
    ensures |JoinPhones(ps)| == if ps == [] then 0 else 12 * |ps| - 2
    ensures forall i :: 0 <= i < |ps| ==> JoinPhones(ps)[12 * i .. 12 * i + 10] == ps[i]
    ensures forall i :: 0 <= i < |ps| - 1 ==> JoinPhones(ps)[12 * i + 10 .. 12 * i + 12] == "; "
  {
    if |ps| > 1 {
      var init := ps[..|ps| - 1];
      JoinedPhoneSlots(init);
      var j := JoinPhones(init);
      assert JoinPhones(ps) == j + "; " + ps[|ps| - 1];
      forall i | 0 <= i < |ps|
        ensures JoinPhones(ps)[12 * i .. 12 * i + 10] == ps[i]
      {
        if i < |ps| - 1 {
          assert JoinPhones(ps)[12 * i .. 12 * i + 10] == j[12 * i .. 12 * i + 10];
        } else {
          assert JoinPhones(ps)[12 * i .. 12 * i + 10] == ps[|ps| - 1];
        }
      }
      forall i | 0 <= i < |ps| - 1
        ensures JoinPhones(ps)[12 * i + 10 .. 12 * i + 12] == "; "
      {
        if i < |ps| - 2 {
          assert JoinPhones(ps)[12 * i + 10 .. 12 * i + 12] == j[12 * i + 10 .. 12 * i + 12];
        } else {
          assert JoinPhones(ps)[12 * i + 10 .. 12 * i + 12] == JoinPhones(ps)[|j| .. |j| + 2];
        }
      }
    }
  }

  class Record {
    /** The name, fixed at construction (no operation renames a contact). */
    const name: string
    /** The phones in insertion order; duplicates are allowed. */
    var phones: seq<PhoneNumber>
    var birthday: Option<CivilDate>

    /** `Record(name)`: any text is a name. */
    constructor (name: string)
      ensures this.name == name && phones == [] && birthday == None
    {
      this.name := name;
      phones := [];
      birthday := None;
    }

    /** `add_phone`: a valid phone is appended; an invalid one raises and changes nothing. */
    method AddPhone(text: string) returns (outcome: Outcome<FieldError>)
      modifies this
      ensures outcome == if IsValidPhone(text) then Pass else Fail(InvalidPhone)
      ensures phones == if IsValidPhone(text) then old(phones) + [text] else old(phones)
      ensures birthday == old(birthday)
    {
      match NewPhone(text)
      case Failure(e) =>
        outcome := Fail(e);
      case Success(p) =>
        phones := phones + [p];
        outcome := Pass;
    }

    /** `remove_phone`: every phone equal to the text goes; the rest stay in order. */
    method RemovePhone(text: string)
      modifies this
      ensures phones == Without(old(phones), text)
      ensures birthday == old(birthday)
    {
      phones := Without(phones, text);
    }

    /** `edit_phone`: an invalid replacement raises and changes nothing; otherwise the
        first phone equal to `current` is replaced and every other slot is untouched;
        without such a phone nothing changes. */
    method EditPhone(current: string, replacement: string) returns (outcome: Outcome<FieldError>)
      modifies this
      ensures outcome == if IsValidPhone(replacement) then Pass else Fail(InvalidPhone)
      ensures !IsValidPhone(replacement) ==> phones == old(phones)
      ensures IsValidPhone(replacement) ==>
        phones == match IndexOf(old(phones), current)
                  case None => old(phones)
                  case Some(i) => old(phones)[i := replacement]
      ensures birthday == old(birthday)
    {
      if !IsValidPhone(replacement) {
        return Fail(InvalidPhone);
      }
      var i := 0;
      while i < |phones|
        invariant 0 <= i <= |phones|
        invariant phones == old(phones)
        invariant forall j :: 0 <= j < i ==> phones[j] != current
      {
        if phones[i] == current {
          phones := phones[i := replacement];
          break;
        }
        i := i + 1;
      }
      outcome := Pass;
    }

    /** `find_phone`: the position of the first phone equal to the text (the phone object
        found), or `None` exactly when no phone equals it. */
    method FindPhone(text: string) returns (r: Option<nat>)
      ensures r.None? <==> text !in phones
      ensures r.Some? ==> r.value < |phones| && phones[r.value] == text
      ensures r.Some? ==> forall j :: 0 <= j < r.value ==> phones[j] != text
    {
      var i := 0;
      while i < |phones|
        invariant 0 <= i <= |phones|
        invariant forall j :: 0 <= j < i ==> phones[j] != text
      {
        if phones[i] == text {
          return Some(i);
        }
        i := i + 1;
      }
      return None;
    }

    /** `add_birthday`: a valid date replaces the birthday; invalid text raises and the
        previous birthday (or none) is kept. */
    method AddBirthday(text: string) returns (outcome: Outcome<FieldError>)
      modifies this
      ensures outcome == if ParseDate(text).Some? then Pass else Fail(InvalidDate)
      ensures birthday == if ParseDate(text).Some? then ParseDate(text) else old(birthday)
      ensures phones == old(phones)
    {
      match NewBirthday(text)
      case Failure(e) =>
        outcome := Fail(e);
      case Success(d) =>
        birthday := Some(d);
        outcome := Pass;
    }

    /** `str(record)`. */
    function Display(): (s: string)
      reads this
      ensures "Contact name: " + name + ", phones: " <= s
      ensures birthday.Some? ==> |s| >= 10 && s[|s| - 10..] == Render(birthday.value)
    {
      "Contact name: " + name + ", phones: " + JoinPhones(phones)
        + (match birthday case None => "" case Some(d) => ", Birthday: " + Render(d))
    }
  }

  /** The display is the name, the joined phones and, when there is one, the labelled
      zero-padded birthday; the date read back from its last ten characters is the
      birthday itself. */
  lemma DisplayBirthday(r: Record)
    ensures r.birthday.Some? ==>
      r.Display() == "Contact name: " + r.name + ", phones: " + JoinPhones(r.phones)
        + ", Birthday: " + Render(r.birthday.value)
    ensures r.birthday.Some? ==>
      var s := r.Display();
      |s| >= 10 && s[|s| - 10..] == Render(r.birthday.value) && ParseDate(s[|s| - 10..]) == r.birthday
    ensures r.birthday.None? ==>
      r.Display() == "Contact name: " + r.name + ", phones: " + JoinPhones(r.phones)
  {
    if r.birthday.Some? {
      RenderParse(r.birthday.value);
    }
  }
}
