/** The loop that adds "Calculated Age": for every entry whose key names a date of
    birth, the age computed from its value is stored under "Calculated Age" when it
    is truthy. */
module DobScan {
  import opened Wrappers
  import opened PyText
  import opened OrderedDict
  import opened Strptime
  import opened AgeCalc

  const AgeKey: string := "Calculated Age"

  /** `"Date of Birth" in key or "DOB" in key`, case-sensitive. */
  predicate IsDobKey(k: string) {
    Contains(k, "Date of Birth") || Contains(k, "DOB")
  }

  /** `calculate_age` with `datetime.today()` fixed to `today`. The scan below is stated
      for any such function `calcAge`. */
  function AgeOn(today: Date): string -> Option<int> {
    s => CalculateAge(s, today)
  }

  /** `calculate_age(value)` on a stored value. An integer makes `re.search` raise a
      `TypeError`, which the function catches. */
  function AgeOf(v: Value, calcAge: string -> Option<int>): Option<int> {
    match v
    case Str(t) => calcAge(t)
    case Num(_) => None
  }

  /** The loop body assigns "Calculated Age" for entry `e`: its key names a date of
      birth and the age of its value is truthy, so `None` and `0` store nothing and a
      negative age is stored. */
  predicate Stores(e: Entry, calcAge: string -> Option<int>) {
    IsDobKey(e.0) && AgeOf(e.1, calcAge).Some? && AgeOf(e.1, calcAge).value != 0
  }

  /** The age the loop stores for entry `e`, if any. */
  function EntryAge(e: Entry, calcAge: string -> Option<int>): Option<int> {
    if Stores(e, calcAge) then AgeOf(e.1, calcAge) else None
  }

  /** Entry `i` is the last one of `d` for which the loop body assigns. */
  predicate LastStored(d: Dict, calcAge: string -> Option<int>, i: int) {
    0 <= i < |d| && Stores(d[i], calcAge) && forall j :: i < j < |d| ==> !Stores(d[j], calcAge)
  }

  /** The key the loop writes is not one it reads. */
  lemma AgeKeyIsNotDobKey()
    ensures !IsDobKey(AgeKey)
  {
    var dob, birth := "DOB", "Date of Birth";
    assert 'D' !in AgeKey;
    if Contains(AgeKey, dob) {
      ContainsFirstChar(AgeKey, dob);
    }
    if Contains(AgeKey, birth) {
      ContainsFirstChar(AgeKey, birth);
    }
  }

  /** The age each entry of `d` stores, in iteration order. */
  function Ages(d: Dict, calcAge: string -> Option<int>): (a: seq<Option<int>>)
    ensures |a| == |d| && forall i :: 0 <= i < |d| ==> a[i] == EntryAge(d[i], calcAge)
  {
    seq(|d|, i requires 0 <= i < |d| => EntryAge(d[i], calcAge))
  }

  /** The last age among the first `n` of `a`, if any. */
  function LastAge(a: seq<Option<int>>, n: int): (r: Option<int>)
    requires 0 <= n <= |a|
    ensures r.None? <==> forall i :: 0 <= i < n ==> a[i].None?
    ensures r.Some? ==> exists i :: 0 <= i < n && a[i] == r && forall j :: i < j < n ==> a[j].None?
    decreases n
  {
    if n == 0 then None
    else if a[n - 1].Some? then a[n - 1]
    else LastAge(a, n - 1)
  }

  /** The dictionary after the loop has visited the first `n` entries, each visited entry
      storing `a[i]`, its age taken before the loop. */
  function ScanPrefix(d: Dict, a: seq<Option<int>>, n: int): Dict
    requires 0 <= n <= |a|
    decreases n
  {
    if n == 0 then d
    else
      var cur := ScanPrefix(d, a, n - 1);
      match a[n - 1]
      case None => cur
      case Some(x) => Put(cur, AgeKey, Num(x))
  }

  /** The scan over a snapshot of the entries, `for key, value in
      list(extracted_data.items())`: the loop's evident intent. */
  function AgeFieldScan(d: Dict, calcAge: string -> Option<int>): Dict {
    ScanPrefix(d, Ages(d, calcAge), |d|)
  }

  /** The repeated assignments collapse into one: the last age wins. */
  lemma {:induction false} ScanPrefixShape(d: Dict, a: seq<Option<int>>, n: int)
    requires 0 <= n <= |a|
    ensures ScanPrefix(d, a, n) ==
      match LastAge(a, n)
      case None => d
      case Some(x) => Put(d, AgeKey, Num(x))
    decreases n
  {
    if n > 0 {
      ScanPrefixShape(d, a, n - 1);
      var cur := ScanPrefix(d, a, n - 1);
      if a[n - 1].Some? {
        var x := a[n - 1].value;
        assert ScanPrefix(d, a, n) == Put(cur, AgeKey, Num(x));
        assert LastAge(a, n) == Some(x);
        if LastAge(a, n - 1).Some? {
          var y := LastAge(a, n - 1).value;
          assert cur == Put(d, AgeKey, Num(y));
          PutTwice(d, AgeKey, Num(y), Num(x));
        } else {
          assert cur == d;
        }
      } else {
        assert ScanPrefix(d, a, n) == cur;
        assert LastAge(a, n) == LastAge(a, n - 1);
      }
    }
  }

  /** What the scan leaves: "Calculated Age" holds the age of the last entry for which
      the loop body assigns, or what it held before when there is none; every other key
      reads as before; the key is appended only when it is new and an age was stored. */
  lemma AgeFieldScanResult(d: Dict, calcAge: string -> Option<int>, x: string)
    requires UniqueKeys(d)
    ensures UniqueKeys(AgeFieldScan(d, calcAge))
    ensures x != AgeKey ==> Get(AgeFieldScan(d, calcAge), x) == Get(d, x)
    ensures (forall i :: 0 <= i < |d| ==> !Stores(d[i], calcAge)) ==>
      Get(AgeFieldScan(d, calcAge), AgeKey) == Get(d, AgeKey)
    ensures forall i :: LastStored(d, calcAge, i) ==>
      Get(AgeFieldScan(d, calcAge), AgeKey) == Some(Num(AgeOf(d[i].1, calcAge).value))
    ensures (exists i :: 0 <= i < |d| && Stores(d[i], calcAge)) ==> exists i :: LastStored(d, calcAge, i)
    ensures KeysOf(AgeFieldScan(d, calcAge)) ==
      if AgeKey !in KeysOf(d) && exists i :: 0 <= i < |d| && Stores(d[i], calcAge) then KeysOf(d) + [AgeKey]
      else KeysOf(d)
  {
    var ages := Ages(d, calcAge);
    ScanPrefixShape(d, ages, |d|);
    LastAgeStored(d, calcAge);
    match LastAge(ages, |d|)
    case None =>
    case Some(a) =>
      GetPut(d, AgeKey, Num(a), x);
      GetPut(d, AgeKey, Num(a), AgeKey);
      PutKeys(d, AgeKey, Num(a));
  }

  /** The last age of the snapshot is the age of the last entry for which the loop body
      assigns, and there is none exactly when the body never assigns. */
  lemma LastAgeStored(d: Dict, calcAge: string -> Option<int>)
    ensures LastAge(Ages(d, calcAge), |d|).None? <==> forall i :: 0 <= i < |d| ==> !Stores(d[i], calcAge)
    ensures forall i :: LastStored(d, calcAge, i) ==>
      LastAge(Ages(d, calcAge), |d|) == Some(AgeOf(d[i].1, calcAge).value)
    ensures LastAge(Ages(d, calcAge), |d|).Some? ==> exists i :: LastStored(d, calcAge, i)
  {
    var a := Ages(d, calcAge);
    var r := LastAge(a, |d|);
    AgesStores(d, calcAge);
    if r.Some? {
      var i0 :| 0 <= i0 < |d| && a[i0] == r && forall j :: i0 < j < |d| ==> a[j].None?;
      assert LastStored(d, calcAge, i0);
      forall i | LastStored(d, calcAge, i) ensures r == Some(AgeOf(d[i].1, calcAge).value) {
        assert i == i0;
      }
    }
  }

  /** The snapshot holds an age for exactly the entries for which the loop body assigns,
      and it is the age of that entry. */
  lemma AgesStores(d: Dict, calcAge: string -> Option<int>)
    ensures forall i :: 0 <= i < |d| ==> (Ages(d, calcAge)[i].Some? <==> Stores(d[i], calcAge))
    ensures forall i :: 0 <= i < |d| && Stores(d[i], calcAge) ==>
      Ages(d, calcAge)[i] == Some(AgeOf(d[i].1, calcAge).value)
  {
    var a := Ages(d, calcAge);
    forall i | 0 <= i < |d|
      ensures (a[i].Some? <==> Stores(d[i], calcAge))
      ensures Stores(d[i], calcAge) ==> a[i] == Some(AgeOf(d[i].1, calcAge).value)
    {
      assert a[i] == EntryAge(d[i], calcAge);
    }
  }

  /** With no date-of-birth key, or none with a truthy age, the scan changes nothing. */
  lemma ScanNoAge(d: Dict, calcAge: string -> Option<int>)
    requires forall i :: 0 <= i < |d| ==> !Stores(d[i], calcAge)
    ensures AgeFieldScan(d, calcAge) == d
  {
    ScanPrefixShape(d, Ages(d, calcAge), |d|);
    LastAgeStored(d, calcAge);
  }

  /** CPython's dictionary iterator refuses to continue once the dictionary's size has
      changed. */
  datatype ScanError = DictChangedSize

  /** The loop as written, iterating the live dictionary: each step first checks that
      the size is unchanged (raising `RuntimeError` otherwise), then whether entries
      remain, then visits the next entry as it is now. Adding "Calculated Age" as a new
      key therefore fails at the next step, even after the last entry. */
  method ScanDob(d: Dict, calcAge: string -> Option<int>) returns (r: Result<Dict, ScanError>)
    requires UniqueKeys(d)
    ensures r.Failure? <==> AgeKey !in KeysOf(d) && exists i :: 0 <= i < |d| && Stores(d[i], calcAge)
    ensures r.Success? ==> r.value == AgeFieldScan(d, calcAge)
  {
    LastAgeStored(d, calcAge);
    var ages := Ages(d, calcAge);
    var cur := d;
    var pos := 0;
    while true
      invariant 0 <= pos <= |d|
      invariant cur == ScanPrefix(d, ages, pos)
      decreases |d| - pos
    {
      SizeChanged(d, ages, pos);
      if |cur| != |d| {
        LastAgeExtends(ages, pos, |d|);
        return Failure(DictChangedSize);
      }
      if pos == |cur| {
        return Success(cur);
      }
      ScanStep(d, ages, pos, calcAge);
      var (key, value) := cur[pos];
      pos := pos + 1;
      if IsDobKey(key) {
        var age := AgeOf(value, calcAge);
        if age.Some? && age.value != 0 {
          cur := Put(cur, AgeKey, Num(age.value));
        }
      }
    }
  }

  /** The dictionary grows exactly when "Calculated Age" is new and an age was stored. */
  lemma SizeChanged(d: Dict, a: seq<Option<int>>, n: int)
    requires 0 <= n <= |a|
    ensures |ScanPrefix(d, a, n)| != |d| <==> AgeKey !in KeysOf(d) && LastAge(a, n).Some?
  {
    ScanPrefixShape(d, a, n);
    match LastAge(a, n)
    case None =>
    case Some(x) =>
      if AgeKey in KeysOf(d) {
        assert |KeysOf(Put(d, AgeKey, Num(x)))| == |KeysOf(d)|;
      }
  }

  /** An age stored among the first `n` entries is stored among the first `m >= n`. */
  lemma LastAgeExtends(a: seq<Option<int>>, n: int, m: int)
    requires 0 <= n <= m <= |a| && LastAge(a, n).Some?
    ensures LastAge(a, m).Some?
  {
    var i :| 0 <= i < n && a[i].Some?;
    assert !a[i].None?;
  }

  /** One step of the live iteration while the size is unchanged: the entry it visits, as
      it is now, stores the same age as the entry of the snapshot, so the step extends the
      snapshot scan by one entry. */
  lemma ScanStep(d: Dict, ages: seq<Option<int>>, pos: int, calcAge: string -> Option<int>)
    requires UniqueKeys(d) && ages == Ages(d, calcAge) && 0 <= pos < |d|
    requires |ScanPrefix(d, ages, pos)| == |d|
    ensures var cur := ScanPrefix(d, ages, pos);
      ScanPrefix(d, ages, pos + 1) ==
        match EntryAge(cur[pos], calcAge)
        case None => cur
        case Some(x) => Put(cur, AgeKey, Num(x))
  {
    CurrentEntryAge(d, ages, pos, calcAge);
  }

  /** While the size is unchanged, the entry the live iteration visits stores the same
      age as the entry of the snapshot: only "Calculated Age" may differ, and it is not a
      date-of-birth key. */
  lemma CurrentEntryAge(d: Dict, ages: seq<Option<int>>, pos: int, calcAge: string -> Option<int>)
    requires UniqueKeys(d) && ages == Ages(d, calcAge) && 0 <= pos < |d|
    requires |ScanPrefix(d, ages, pos)| == |d|
    ensures EntryAge(ScanPrefix(d, ages, pos)[pos], calcAge) == ages[pos]
  {
    ScanPrefixShape(d, ages, pos);
    AgeKeyIsNotDobKey();
    var cur := ScanPrefix(d, ages, pos);
    match LastAge(ages, pos)
    case None =>
    case Some(x) =>
      if AgeKey in KeysOf(d) && d[pos].0 == AgeKey {
        assert cur[pos] == (AgeKey, Num(x));
        assert !IsDobKey(d[pos].0);
      } else if AgeKey in KeysOf(d) {
        assert cur[pos] == d[pos];
      }
  }

  /** `{"DOB": "01-Jan-1980"}` on 2024-06-15: the birthday of the year has passed, the
      loop body assigns the age 44, and "Calculated Age" is a new key. */
  lemma BirthdayPassed()
    ensures var d, calcAge := [("DOB", Str("01-Jan-1980"))], AgeOn(Date(2024, 6, 15));
      Stores(d[0], calcAge) && AgeOf(d[0].1, calcAge) == Some(44)
      && AgeFieldScan(d, calcAge) == d + [(AgeKey, Num(44))]
  {
    WrittenDateAge([("DOB", Str("01-Jan-1980"))], Date(1980, 1, 1), "01-Jan-1980", Date(2024, 6, 15));
  }

  /** `{"DOB": "02-Jun-2000"}` on 2024-06-01: the birthday of the year is still ahead,
      the age is 23. */
  lemma BirthdayAhead()
    ensures var d, calcAge := [("DOB", Str("02-Jun-2000"))], AgeOn(Date(2024, 6, 1));
      Stores(d[0], calcAge) && AgeOf(d[0].1, calcAge) == Some(23)
      && AgeFieldScan(d, calcAge) == d + [(AgeKey, Num(23))]
  {
    WrittenDateAge([("DOB", Str("02-Jun-2000"))], Date(2000, 6, 2), "02-Jun-2000", Date(2024, 6, 1));
  }

  /** A one-entry record "DOB" holding a date written in the format. */
  lemma WrittenDateAge(d: Dict, dob: Date, text: string, today: Date)
    requires ValidDate(dob) && text == Format(dob) && d == [("DOB", Str(text))]
    requires Age(today, dob) != 0
    ensures AgeKey !in KeysOf(d)
    ensures Stores(d[0], AgeOn(today)) && AgeOf(d[0].1, AgeOn(today)) == Some(Age(today, dob))
    ensures AgeFieldScan(d, AgeOn(today)) == d + [(AgeKey, Num(Age(today, dob)))]
  {
    DobEntryAge(dob, today);
    var ages := Ages(d, AgeOn(today));
    assert ages[0] == Some(Age(today, dob));
    ScanPrefixShape(d, ages, 1);
  }

  lemma DobEntryAge(dob: Date, today: Date)
    requires ValidDate(dob) && Age(today, dob) != 0
    ensures Stores(("DOB", Str(Format(dob))), AgeOn(today))
    ensures AgeOf(Str(Format(dob)), AgeOn(today)) == Some(Age(today, dob))
  {
    AgeOfWrittenDate("", dob, "", today);
    assert "" + Format(dob) + "" == Format(dob);
    assert AgeOf(Str(Format(dob)), AgeOn(today)) == CalculateAge(Format(dob), today);
    assert IsDobKey("DOB") by { assert OccursAt("DOB", "DOB", 0); }
  }

  /** The loop as written on a one-entry record whose "DOB" value is a date in the format
      with a nonzero age, such as `{"DOB": "01-Jan-1980"}` on 2024-06-15: the new key makes
      the next iteration step raise `RuntimeError`. */
  method ScanDobRaisesOnDobRecord(text: string, dob: Date, today: Date) returns (r: Result<Dict, ScanError>)
    requires ValidDate(dob) && text == Format(dob) && Age(today, dob) != 0
    ensures r.Failure?
  {
    var d := [("DOB", Str(text))];
    WrittenDateAge(d, dob, text, today);
    r := ScanDob(d, AgeOn(today));
  }
}
