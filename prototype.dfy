/** The student id generator of the prototype demonstration: `HR_SIT()` makes a
    recruiter with its own counter, and each `recruit` call draws the next serial
    number and builds an id from the apply year, the SIT faculty prefix and the
    serial padded to three digits. */
module Prototype {
  import opened Decimal

  const SitFacultyName := "SIT"
  const SitPrefixId := "130500"

  /** The record `createKmuttFaculty` builds field by field. The university
      fields it inherits through its prototype are not part of this model. */
  class Faculty {
    var facultyName: string
    var prefixId: string

    constructor CreateKmuttFaculty(facultyName: string, prefixId: string)
      ensures this.facultyName == facultyName && this.prefixId == prefixId
    {
      this.facultyName := facultyName;
      this.prefixId := prefixId;
    }
  }

  datatype Student = Student(name: string, id: string, faculty: string)

  /** `String.prototype.substring(start)`: the characters from `start` on, or
      nothing when `start` lies past the end. */
  function Substring(s: string, start: nat): (r: string)
    ensures |r| == if start <= |s| then |s| - start else 0
    ensures r == s[|s| - |r|..]
  {
    if start <= |s| then s[start..] else []
  }

  /** `String.prototype.padStart(targetLength, fill)` with a one-character fill:
      `s` itself when it is long enough, otherwise `s` behind enough `fill`s to
      reach `targetLength`. */
  function PadStart(s: string, targetLength: nat, fill: char): (r: string)
    ensures |r| == if |s| < targetLength then targetLength else |s|
    ensures r[|r| - |s|..] == s
    ensures forall i :: 0 <= i < |r| - |s| ==> r[i] == fill
  {
    if |s| >= targetLength then s else seq(targetLength - |s|, _ => fill) + s
  }

  /** The three parts of an id: the apply year's decimal string from index 2,
      the faculty prefix, and the serial number padded with zeros to width 3. */
  function YearPart(applyYear: int): string {
    Substring(IntToString(applyYear), 2)
  }

  function SerialPart(serial: nat): string {
    PadStart(NatToString(serial), 3, '0')
  }

  function StudentId(applyYear: int, prefixId: string, serial: nat): string {
    YearPart(applyYear) + prefixId + SerialPart(serial)
  }

  /** The serial part reads back as the serial; below 1000 it is exactly three
      digits, from 1000 on it is the plain decimal string. */
  lemma SerialPartValue(serial: nat)
    ensures AllDigits(SerialPart(serial)) && Value(SerialPart(serial)) == serial
    ensures serial < 1000 ==> |SerialPart(serial)| == 3
    ensures serial >= 1000 ==> SerialPart(serial) == NatToString(serial)
  {
    var s := NatToString(serial);
    NatToStringValue(serial);
    NatToStringLength(serial, 3);
    NatToStringLength(serial, 4);
    if |s| < 3 {
      assert seq(3 - |s|, _ => '0') == Zeros(3 - |s|);
      ValueLeadingZeros(3 - |s|, s);
    }
  }

  /** One recruiter never hands out the same id twice for one apply year:
      different serial numbers give different ids. */
  lemma StudentIdsDistinct(applyYear: int, prefixId: string, m: nat, n: nat)
    requires m != n
    ensures StudentId(applyYear, prefixId, m) != StudentId(applyYear, prefixId, n)
  {
    var head := YearPart(applyYear) + prefixId;
    if StudentId(applyYear, prefixId, m) == StudentId(applyYear, prefixId, n) {
      assert (head + SerialPart(m))[|head|..] == SerialPart(m);
      assert (head + SerialPart(n))[|head|..] == SerialPart(n);
      SerialPartValue(m);
      SerialPartValue(n);
      assert false;
    }
  }

  /** The year part of a four-digit year is its last two digits. */
  lemma YearPartOfFourDigitYear(applyYear: int)
    requires 1000 <= applyYear <= 9999
    ensures |YearPart(applyYear)| == 2
    ensures AllDigits(YearPart(applyYear)) && Value(YearPart(applyYear)) == applyYear % 100
  {
    var y := NatToString(applyYear);
    NatToStringLength(applyYear, 4);
    assert |y| == 4;
    NatToStringValue(applyYear);
    ValueSplit(y, 2);
    ValueBound(y[2..]);
    assert Pow10(2) == 100;
    var high, low := Value(y[..2]), Value(y[2..]);
    assert applyYear == high * 100 + low;
    RemainderOfSplit(high, low);
  }

  lemma RemainderOfSplit(q: nat, r: nat)
    requires r < 100
    ensures (q * 100 + r) % 100 == r
  {
  }

  /** For a four-digit year and a serial below 1000 the id has eleven characters:
      the year modulo 100 in two digits, the prefix, and the serial in three. */
  lemma StudentIdLayout(applyYear: int, serial: nat)
    requires 1000 <= applyYear <= 9999 && serial < 1000
    ensures var id := StudentId(applyYear, SitPrefixId, serial);
      && |id| == 11
      && AllDigits(id[..2]) && Value(id[..2]) == applyYear % 100
      && id[2..8] == SitPrefixId
      && AllDigits(id[8..]) && Value(id[8..]) == serial
  {
    YearPartOfFourDigitYear(applyYear);
    SerialPartValue(serial);
    var year, serialPart := YearPart(applyYear), SerialPart(serial);
    var id := year + SitPrefixId + serialPart;
    assert id[..2] == year;
    assert id[2..8] == SitPrefixId;
    assert id[8..] == serialPart;
  }

  /** The first recruit for apply year 2565 receives serial 1 and the id
      "65130500001". */
  lemma FirstStudentId()
    ensures StudentId(2565, SitPrefixId, 1) == "65130500001"
  {
    YearPart2565();
    SerialPart1();
  }

  lemma YearPart2565()
    ensures YearPart(2565) == "65"
  {
    assert NatToString(2565) == "2565";
  }

  lemma SerialPart1()
    ensures SerialPart(1) == "001"
  {
    assert NatToString(1) == "1";
  }

  /** `HR_SIT()`: a recruiter for the SIT faculty with its own counter. */
  class HrSit {
    const sitStudentInfo: Faculty
    var lastId: nat

    ghost predicate Valid()
      reads this, sitStudentInfo
    {
      sitStudentInfo.facultyName == SitFacultyName && sitStudentInfo.prefixId == SitPrefixId
    }

    /** Every recruiter starts its own counter at 0. */
    constructor ()
      ensures Valid() && fresh(sitStudentInfo) && lastId == 0
    {
      sitStudentInfo := new Faculty.CreateKmuttFaculty(SitFacultyName, SitPrefixId);
      lastId := 0;
    }

    /** `recruit`: draws the next serial number (`++lastId`) and builds the
        student record with the id of that serial and the faculty's name. */
    method Recruit(name: string, applyYear: int) returns (student: Student)
      requires Valid()
      modifies this
      ensures Valid() && lastId == old(lastId) + 1
      ensures student == Student(name, StudentId(applyYear, SitPrefixId, lastId), SitFacultyName)
    {
      lastId := lastId + 1;
      student := Student(name,
                         YearPart(applyYear) + sitStudentInfo.prefixId + SerialPart(lastId),
                         sitStudentInfo.facultyName);
    }
  }

  /** Two recruits from one recruiter with the same apply year get different ids. */
  method RecruitTwice(hr: HrSit, name1: string, name2: string, applyYear: int)
    returns (first: Student, second: Student)
    requires hr.Valid()
    modifies hr
    ensures hr.Valid() && hr.lastId == old(hr.lastId) + 2
    ensures first.id != second.id
  {
    first := hr.Recruit(name1, applyYear);
    second := hr.Recruit(name2, applyYear);
    StudentIdsDistinct(applyYear, SitPrefixId, hr.lastId - 1, hr.lastId);
  }

  /** The demonstration's own call, `HR_SIT().recruit('Adam', 2565)`, made on two
      separate recruiters: each counter starts afresh, so both give serial 1. */
  method FirstRecruits() returns (adam: Student, other: Student)
    ensures adam == Student("Adam", "65130500001", "SIT")
    ensures other.id == adam.id
  {
    var hr := new HrSit();
    var hr2 := new HrSit();
    adam := hr.Recruit("Adam", 2565);
    other := hr2.Recruit("Eve", 2565);
    assert adam.id == StudentId(2565, SitPrefixId, 1) == other.id;
    FirstStudentId();
  }
}
