/**
 * The classroom allocator. It drops locked students, rates the rest, sorts
 * them by rating (stably, ascending), splits them into a male and a female
 * pool, and hands each pool out over the classrooms by a round robin that
 * starts from the hardest student. The classroom list comes from the
 * classroom store and is a parameter here; saving the result is not modelled.
 */
module ClassroomCalculator {
  import opened Collections
  import opened Entities
  import DtoResults

  type Weight = x: int | x > 0 witness 1

  /** The three rating weights, passed in rather than read from shared configuration. */
  datatype Weighting = Weighting(academicPerformance: Weight, behaviour: Weight, learningDifficulty: Weight)

  // ----- Rating ---------------------------------------------------------------

  /** The difficulty rating: each attribute times its weight, summed. */
  function Score(s: Student, w: Weighting): (r: int)
    ensures w.academicPerformance + w.behaviour + w.learningDifficulty <= r
    ensures r <= 5 * w.academicPerformance + 5 * w.behaviour + 3 * w.learningDifficulty
  {
    WeightedBounds(s.academicPerformance, 5, w.academicPerformance);
    WeightedBounds(s.behaviour, 5, w.behaviour);
    WeightedBounds(s.learningDifficulty, 3, w.learningDifficulty);
    s.academicPerformance * w.academicPerformance
      + s.behaviour * w.behaviour
      + s.learningDifficulty * w.learningDifficulty
  }

  lemma WeightedBounds(level: int, top: int, weight: Weight)
    requires 1 <= level <= top
    ensures weight <= level * weight <= top * weight
  {
  }

  /**
   * The rating is monotone in every attribute, and strictly so: a student at
   * least as demanding in all three is rated at least as high, and higher
   * exactly when more demanding in one of them.
   */
  lemma ScoreMonotone(s: Student, t: Student, w: Weighting)
    requires s.academicPerformance <= t.academicPerformance
    requires s.behaviour <= t.behaviour
    requires s.learningDifficulty <= t.learningDifficulty
    ensures Score(s, w) <= Score(t, w)
    ensures Score(s, w) < Score(t, w) <==>
      s.academicPerformance < t.academicPerformance
      || s.behaviour < t.behaviour
      || s.learningDifficulty < t.learningDifficulty
  {
  }

  function ByScore(w: Weighting): Student -> int
  {
    (s: Student) => Score(s, w)
  }

  // ----- Filters ----------------------------------------------------------------

  function IsUnlocked(s: Student): bool
  {
    !s.lockedInClassroom
  }

  /** Exact match on the gender marker. */
  function HasGender(g: string): Student -> bool
  {
    (s: Student) => s.gender == g
  }

  /** The students the allocator places: unlocked, with gender "M" or "F". */
  function IsEligible(s: Student): bool
  {
    !s.lockedInClassroom && (s.gender == "M" || s.gender == "F")
  }

  /** The input students the allocator may place, in input order. */
  function Placeable(students: seq<Student>): seq<Student>
  {
    Filter(students, IsEligible)
  }

  /** LINQ `Where(!LockedInClassroom)`: the students not locked in place. */
  function Unlocked(students: seq<Student>): (r: seq<Student>)
    ensures forall i :: 0 <= i < |r| ==> r[i] in students && !r[i].lockedInClassroom
  {
    FilterMembers(students, IsUnlocked);
    Filter(students, IsUnlocked)
  }

  /** Students of one gender sharing one rating. */
  function Peers(g: string, w: Weighting, k: int): Student -> bool
  {
    (s: Student) => s.gender == g && Score(s, w) == k
  }

  // ----- The allocation as a function of the input --------------------------------

  /** The unlocked students, stably sorted by ascending rating. */
  function SortedUnlocked(students: seq<Student>, w: Weighting): seq<Student>
  {
    SortBy(Unlocked(students), ByScore(w))
  }

  /** The pool of gender `g`, in sorted order. */
  function Pool(students: seq<Student>, w: Weighting, g: string): seq<Student>
  {
    Filter(SortedUnlocked(students, w), HasGender(g))
  }

  /** The order of the output: each pool from its hardest end, males first. */
  function Allocation(students: seq<Student>, w: Weighting): seq<Student>
  {
    Reverse(Pool(students, w, "M")) + Reverse(Pool(students, w, "F"))
  }

  /** Position within its own pool of the `i`-th output student, given the male pool size. */
  function PoolIndex(i: nat, males: nat): nat
  {
    if i < males then i else i - males
  }

  // ----- Round robin -------------------------------------------------------------

  /** The classroom index the `k`-th student of a pool is given. */
  function Slot(k: nat, count: nat): (c: nat)
    requires 0 < count
    ensures c < count
  {
    k % count
  }

  /** The classroom the `k`-th student of a pool is given. */
  function AssignedClassroom(classrooms: seq<ClassroomDto>, k: nat): Classroom
    requires 0 < |classrooms|
  {
    DtoToClassroomMap(classrooms[Slot(k, |classrooms|)])
  }

  /** The classroom indices given to the first `n` students of a pool, in order. */
  function Slots(n: nat, count: nat): (r: seq<nat>)
    requires 0 < count
    ensures |r| == n
    ensures forall k :: 0 <= k < n ==> r[k] == Slot(k, count)
  {
    if n == 0 then [] else Slots(n - 1, count) + [Slot(n - 1, count)]
  }

  /**
   * The distributor's cursor: reset to 0 once past the last index, then used.
   * Before the `k`-th assignment it holds 0 (k = 0) or one past the slot of
   * the previous assignment; after the reset it is the slot of the `k`-th.
   */
  lemma CursorIsSlot(k: nat, count: nat, cursor: int)
    requires 0 < count
    requires k == 0 ==> cursor == 0
    requires 0 < k ==> cursor == Slot(k - 1, count) + 1
    ensures (if cursor > count - 1 then 0 else cursor) == Slot(k, count)
  {
    if 0 < k {
      DivModNext(k - 1, count);
    }
  }

  /** How `n / count` and `n % count` change from `n` to `n + 1`. */
  lemma DivModNext(n: nat, count: nat)
    requires 0 < count
    ensures n % count == count - 1 ==> (n + 1) % count == 0 && (n + 1) / count == n / count + 1
    ensures n % count < count - 1 ==> (n + 1) % count == n % count + 1 && (n + 1) / count == n / count
  {
    var q, r := n / count, n % count;
    assert n == count * q + r;
    if r == count - 1 {
      assert n + 1 == count * (q + 1);
      DivModUnique(n + 1, count, q + 1, 0);
    } else {
      DivModUnique(n + 1, count, q, r + 1);
    }
  }

  lemma DivModUnique(n: int, count: int, q: int, r: int)
    requires 0 < count && 0 <= r < count && n == count * q + r
    ensures n / count == q && n % count == r
  {
    var q', r' := n / count, n % count;
    // n == count * q' + r' as well; a quotient differing by d >= 1 would put
    // the remainders count * d >= count apart
    if q' < q {
      MulGrows(count, q - q');
    } else if q < q' {
      MulGrows(count, q' - q);
    }
  }

  lemma MulGrows(a: int, b: int)
    requires 0 < a && 0 < b
    ensures a <= a * b
  {
  }

  /**
   * How often classroom index `c` is used by a pool of `n`: every index
   * `n / count` times, and the first `n % count` indices once more.
   */
  lemma {:induction false} SlotUsage(n: nat, count: nat, c: nat)
    requires c < count
    ensures multiset(Slots(n, count))[c] == n / count + (if c < n % count then 1 else 0)
  {
    if n > 0 {
      var m := n - 1;
      SlotUsage(m, count, c);
      assert Slots(n, count) == Slots(m, count) + [Slot(m, count)];
      assert multiset(Slots(n, count))[c]
        == multiset(Slots(m, count))[c] + (if Slot(m, count) == c then 1 else 0);
      UsageStep(m, count, c);
    }
  }

  /** One more placement adds one use to classroom `m mod count` and none to the others. */
  lemma UsageStep(m: nat, count: nat, c: nat)
    requires c < count
    ensures (m + 1) / count + (if c < (m + 1) % count then 1 else 0)
      == m / count + (if c < m % count then 1 else 0) + (if m % count == c then 1 else 0)
  {
    DivModNext(m, count);
  }

  /**
   * Within one pool the classrooms are used evenly: two usage counts differ
   * by at most one, and a pool no larger than the classroom list uses no
   * classroom twice.
   */
  lemma SlotsBalanced(n: nat, count: nat, c: nat, d: nat)
    requires c < count && d < count
    ensures multiset(Slots(n, count))[c] <= multiset(Slots(n, count))[d] + 1
    ensures n <= count ==> multiset(Slots(n, count))[c] <= 1
  {
    SlotUsage(n, count, c);
    SlotUsage(n, count, d);
    if n <= count {
      if n == count {
        DivModUnique(n, count, 1, 0);
      } else {
        DivModUnique(n, count, 0, n);
      }
    }
  }

  // ----- Properties of the allocation ---------------------------------------------

  /** The members of a pool are unlocked students of its gender. */
  lemma PoolMembers(students: seq<Student>, w: Weighting, g: string)
    ensures forall s :: s in Pool(students, w, g) ==> s in students && !s.lockedInClassroom && s.gender == g
  {
    var unlocked := Unlocked(students);
    FilterMembers(SortedUnlocked(students, w), HasGender(g));
    FilterMembers(students, IsUnlocked);
    forall s | s in Pool(students, w, g)
      ensures s in unlocked
    {
      SortByPermutes(unlocked, ByScore(w));
      assert s in multiset(SortBy(unlocked, ByScore(w)));
    }
  }

  /**
   * The output holds exactly the unlocked students whose gender is "M" or
   * "F", each as often as in the input: locked students and other genders
   * are absent, and nobody is lost or repeated.
   */
  lemma AllocationIsPermutation(students: seq<Student>, w: Weighting)
    ensures multiset(Allocation(students, w)) == multiset(Placeable(students))
  {
    var unlocked := Unlocked(students);
    ReverseMultiset(Pool(students, w, "M"));
    ReverseMultiset(Pool(students, w, "F"));
    SortByFilterMultiset(unlocked, ByScore(w), HasGender("M"));
    SortByFilterMultiset(unlocked, ByScore(w), HasGender("F"));
    forall i | 0 <= i < |unlocked|
      ensures !(HasGender("M")(unlocked[i]) && HasGender("F")(unlocked[i]))
      ensures IsEligible(unlocked[i]) <==> HasGender("M")(unlocked[i]) || HasGender("F")(unlocked[i])
    {
      assert unlocked[i] in unlocked;
      assert "M" != "F" by { assert "M"[0] != "F"[0]; }
    }
    FilterSplit(unlocked, HasGender("M"), HasGender("F"), IsEligible);
    FilterSubsumed(students, IsUnlocked, IsEligible);
    calc {
      multiset(Allocation(students, w));
      multiset(Pool(students, w, "M")) + multiset(Pool(students, w, "F"));
      multiset(Filter(unlocked, HasGender("M"))) + multiset(Filter(unlocked, HasGender("F")));
      multiset(Filter(unlocked, IsEligible));
    }
  }

  /** The two pools together are as large as the placeable students, and drawn from them. */
  lemma PoolsOfPlaceable(students: seq<Student>, w: Weighting)
    ensures |Pool(students, w, "M")| + |Pool(students, w, "F")| == |Placeable(students)|
    ensures forall s :: s in Pool(students, w, "M") ==> s in students && IsEligible(s)
    ensures forall s :: s in Pool(students, w, "F") ==> s in students && IsEligible(s)
  {
    AllocationIsPermutation(students, w);
    assert |multiset(Allocation(students, w))| == |multiset(Placeable(students))|;
    PoolMembers(students, w, "M");
    PoolMembers(students, w, "F");
  }

  /**
   * The male pool's students come first and the female pool's after them:
   * position `i` holds gender "M" exactly when it lies in the male part.
   */
  lemma AllocationMalesFirst(students: seq<Student>, w: Weighting)
    ensures forall i :: 0 <= i < |Allocation(students, w)| ==>
      Allocation(students, w)[i].gender == if i < |Pool(students, w, "M")| then "M" else "F"
    ensures forall i, j ::
      (0 <= i < |Allocation(students, w)| && 0 <= j < |Allocation(students, w)|
       && Allocation(students, w)[i].gender == "M" && Allocation(students, w)[j].gender == "F") ==> i < j
  {
    var a := Allocation(students, w);
    var males, females := Pool(students, w, "M"), Pool(students, w, "F");
    PoolMembers(students, w, "M");
    PoolMembers(students, w, "F");
    assert "M" != "F" by { assert "M"[0] != "F"[0]; }
    forall i | 0 <= i < |a|
      ensures a[i].gender == if i < |males| then "M" else "F"
    {
      if i < |males| {
        assert a[i] == males[|males| - 1 - i];
      } else {
        assert a[i] == females[|females| - 1 - (i - |males|)];
      }
    }
  }

  /** Within each pool the output runs from the highest rating to the lowest. */
  lemma AllocationDescending(students: seq<Student>, w: Weighting)
    ensures forall i, j ::
      (0 <= i < j < |Allocation(students, w)|
       && Allocation(students, w)[i].gender == Allocation(students, w)[j].gender) ==>
      Score(Allocation(students, w)[i], w) >= Score(Allocation(students, w)[j], w)
  {
    var a := Allocation(students, w);
    var males, females := Pool(students, w, "M"), Pool(students, w, "F");
    var rm, rf := Reverse(males), Reverse(females);
    var m := |males|;
    assert a == rm + rf;
    SortBySorted(Unlocked(students), ByScore(w));
    FilterSortedBy(SortedUnlocked(students, w), HasGender("M"), ByScore(w));
    FilterSortedBy(SortedUnlocked(students, w), HasGender("F"), ByScore(w));
    ReverseSortedBy(males, ByScore(w));
    ReverseSortedBy(females, ByScore(w));
    AllocationMalesFirst(students, w);
    assert "M" != "F" by { assert "M"[0] != "F"[0]; }
    forall i, j | 0 <= i < j < |a| && a[i].gender == a[j].gender
      ensures Score(a[i], w) >= Score(a[j], w)
    {
      if j < m {
        assert a[i] == rm[i] && a[j] == rm[j];
      } else {
        assert a[i] == rf[i - m] && a[j] == rf[j - m];
      }
    }
  }

  /**
   * Ties within a pool come out in reverse input order: the students of
   * gender `g` rated `k` appear in the output in the reverse of the order in
   * which they were given, because the sort is stable and the pool is walked
   * backwards.
   */
  lemma AllocationTiesReversed(students: seq<Student>, w: Weighting, g: string, k: int)
    requires g == "M" || g == "F"
    ensures Filter(Allocation(students, w), Peers(g, w, k))
      == Reverse(Filter(Unlocked(students), Peers(g, w, k)))
  {
    var q := Peers(g, w, k);
    var other := if g == "M" then "F" else "M";
    var sorted := SortedUnlocked(students, w);
    var mine, theirs := Pool(students, w, g), Pool(students, w, other);
    assert "M" != "F" by { assert "M"[0] != "F"[0]; }
    FilterConcat(Reverse(Pool(students, w, "M")), Reverse(Pool(students, w, "F")), q);
    FilterReverse(mine, q);
    PoolMembers(students, w, other);
    FilterNoneKept(Reverse(theirs), q);
    FilterSubsumed(sorted, HasGender(g), q);
    SortByStable(Unlocked(students), ByScore(w), q, k);
  }

  /** Every student a placement reaches gets one of the listed classrooms. */
  lemma AssignedInRange(a: seq<Student>, classrooms: seq<ClassroomDto>, males: nat)
    requires 0 < |classrooms|
    requires forall i :: LastOccurrence(a, i) ==>
      a[i].classroom == Some(AssignedClassroom(classrooms, PoolIndex(i, males)))
    ensures forall s :: s in a ==>
      s.classroom.Some? && exists c :: 0 <= c < |classrooms| && s.classroom.value == DtoToClassroomMap(classrooms[c])
  {
    forall s | s in a
      ensures s.classroom.Some? && exists c :: 0 <= c < |classrooms| && s.classroom.value == DtoToClassroomMap(classrooms[c])
    {
      var i :| 0 <= i < |a| && a[i] == s;
      var last := LastOccurrenceExists(a, i);
      var c := Slot(PoolIndex(last, males), |classrooms|);
      assert s.classroom.value == DtoToClassroomMap(classrooms[c]);
    }
  }

  // ----- The allocator --------------------------------------------------------------

  /**
   * Writes each student's rating, then returns them stably sorted by it.
   * The sort is keyed on Score, which the first loop has just stored.
   */
  method SortStudentsByDifficulty(students: seq<Student>, w: Weighting) returns (sorted: seq<Student>)
    modifies students`difficultyRating
    ensures forall s :: s in students ==> s.difficultyRating == Score(s, w)
    ensures sorted == SortBy(students, ByScore(w))
    ensures forall i, j :: 0 <= i < j < |sorted| ==> sorted[i].difficultyRating <= sorted[j].difficultyRating
  {
    for i := 0 to |students|
      invariant forall j :: 0 <= j < i ==> students[j].difficultyRating == Score(students[j], w)
    {
      students[i].difficultyRating := Score(students[i], w);
    }
    sorted := SortBy(students, ByScore(w));
    SortBySorted(students, ByScore(w));
    forall s | s in sorted
      ensures s in students
    {
      SortByPermutes(students, ByScore(w));
      assert s in multiset(sorted);
    }
  }

  /**
   * Hands out one pool: from its last student to its first, the `k`-th
   * student taken gets classroom `k mod |classrooms|`, is appended to the
   * output and is removed from the pool list, which ends empty.
   */
  method DivideGenderedStudents(students: List<Student>, classrooms: seq<ClassroomDto>)
    returns (sorted: seq<Student>)
    requires 0 < |students.items| ==> 0 < |classrooms|
    modifies students, students.items`classroom
    ensures students.items == []
    ensures sorted == Reverse(old(students.items))
    ensures forall k :: LastOccurrence(sorted, k) ==>
      sorted[k].classroom == Some(AssignedClassroom(classrooms, k))
  {
    ghost var pool := students.items;
    sorted := [];
    var classroomMaxLength := |classrooms| - 1;
    var currentClassroomIndex := 0;
    var j := students.Count() - 1;
    while j >= 0
      invariant -1 <= j < |pool|
      invariant students.items == pool[..j + 1]
      invariant |sorted| == |pool| - 1 - j
      invariant forall i :: 0 <= i < |sorted| ==> sorted[i] == pool[|pool| - 1 - i]
      invariant 0 <= currentClassroomIndex <= |classrooms|
      invariant |sorted| == 0 ==> currentClassroomIndex == 0
      invariant 0 < |sorted| ==>
        (0 < |classrooms| && currentClassroomIndex == Slot(|sorted| - 1, |classrooms|) + 1)
      invariant forall k :: LastOccurrence(sorted, k) ==>
        sorted[k].classroom == Some(AssignedClassroom(classrooms, k))
    {
      ghost var k := |sorted|;
      ghost var placed := sorted;
      CursorIsSlot(k, |classrooms|, currentClassroomIndex);
      if currentClassroomIndex > classroomMaxLength {
        currentClassroomIndex := 0;
      }
      var currentStudent := students.items[j];
      assert currentStudent == pool[j];
      currentStudent.classroom := Some(DtoToClassroomMap(classrooms[currentClassroomIndex]));
      sorted := sorted + [currentStudent];
      forall i | LastOccurrence(sorted, i)
        ensures sorted[i].classroom == Some(AssignedClassroom(classrooms, i))
      {
        if i < k {
          assert sorted[k] != sorted[i];
          assert LastOccurrence(placed, i) by {
            forall i' | i < i' < k
              ensures placed[i'] != placed[i]
            {
              assert sorted[i'] == placed[i'];
            }
          }
        }
      }
      students.RemoveAt(j);
      currentClassroomIndex := currentClassroomIndex + 1;
      j := j - 1;
    }
    assert sorted == Reverse(pool);
  }

  /** Hands out the male pool, then the female pool, and concatenates the two. */
  method DivideStudentsIntoClassrooms(maleStudents: List<Student>, femaleStudents: List<Student>,
                                      classrooms: seq<ClassroomDto>)
    returns (sorted: seq<Student>)
    requires maleStudents != femaleStudents
    requires 0 < |maleStudents.items| + |femaleStudents.items| ==> 0 < |classrooms|
    modifies maleStudents, femaleStudents, maleStudents.items`classroom, femaleStudents.items`classroom
    ensures maleStudents.items == [] && femaleStudents.items == []
    ensures sorted == Reverse(old(maleStudents.items)) + Reverse(old(femaleStudents.items))
    ensures forall i :: LastOccurrence(sorted, i) ==>
      sorted[i].classroom == Some(AssignedClassroom(classrooms, PoolIndex(i, |old(maleStudents.items)|)))
  {
    ghost var femalePool := femaleStudents.items;
    var males := DivideGenderedStudents(maleStudents, classrooms);
    label MalesPlaced:
    var females := DivideGenderedStudents(femaleStudents, classrooms);
    sorted := males + females;
    ReverseMultiset(femalePool);
    forall i | LastOccurrence(sorted, i)
      ensures sorted[i].classroom == Some(AssignedClassroom(classrooms, PoolIndex(i, |males|)))
    {
      LastOccurrenceConcat(males, females, i);
      if i < |males| {
        assert males[i] !in multiset(femalePool);
        assert males[i].classroom == old@MalesPlaced(males[i].classroom);
      }
    }
  }

  /**
   * The allocator's entry point. Saving the students is a call whose result
   * is discarded, so the returned result never carries an error. With no
   * classrooms the source fails on the first placement; callers must then
   * have nobody to place.
   */
  method CalculateClassrooms(students: seq<Student>, classrooms: seq<ClassroomDto>, w: Weighting)
    returns (result: DtoResults.ValueResult<seq<Student>>)
    requires |classrooms| == 0 ==> Placeable(students) == []
    modifies students`difficultyRating, students`classroom
    ensures fresh(result) && fresh(result.status)
    ensures result.IsSuccess()
    ensures result.value == Some(Allocation(students, w))
    ensures forall i :: 0 <= i < |students| ==>
      students[i].difficultyRating == if IsUnlocked(students[i]) then Score(students[i], w) else old(students[i].difficultyRating)
    ensures forall i :: 0 <= i < |students| && !IsEligible(students[i]) ==> students[i].classroom == old(students[i].classroom)
    ensures 0 < |classrooms| ==> forall i :: LastOccurrence(Allocation(students, w), i) ==>
      Allocation(students, w)[i].classroom
        == Some(AssignedClassroom(classrooms, PoolIndex(i, |Pool(students, w, "M")|)))
    ensures forall s :: s in Allocation(students, w) ==>
      s.classroom.Some? && exists c :: 0 <= c < |classrooms| && s.classroom.value == DtoToClassroomMap(classrooms[c])
  {
    var studentsToSort := Unlocked(students);
    studentsToSort := SortStudentsByDifficulty(studentsToSort, w);
    var maleStudents := new List(Filter(studentsToSort, HasGender("M")));
    var femaleStudents := new List(Filter(studentsToSort, HasGender("F")));
    ghost var males, females := Pool(students, w, "M"), Pool(students, w, "F");
    assert maleStudents.items == males && femaleStudents.items == females;
    PoolsOfPlaceable(students, w);
    assert forall i :: 0 <= i < |males| ==> males[i] in students;
    assert forall i :: 0 <= i < |females| ==> females[i] in students;
    label Rated:
    var value := DivideStudentsIntoClassrooms(maleStudents, femaleStudents, classrooms);
    result := new DtoResults.ValueResult<seq<Student>>.WithValue(value);
    forall i | 0 <= i < |students|
      ensures students[i].difficultyRating == if IsUnlocked(students[i]) then Score(students[i], w) else old(students[i].difficultyRating)
    {
      if IsUnlocked(students[i]) {
        FilterKeeps(students, IsUnlocked);
        assert students[i] in Unlocked(students);
      }
      assert students[i].difficultyRating == old@Rated(students[i].difficultyRating);
    }
    forall i | 0 <= i < |students| && !IsEligible(students[i])
      ensures students[i].classroom == old(students[i].classroom)
    {
      assert students[i] !in males && students[i] !in females;
    }
    if 0 < |classrooms| {
      AssignedInRange(value, classrooms, |males|);
    }
  }
}
