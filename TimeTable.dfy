/** The weekly timetable: a fixed grid of five week days by five hourly
    slots, where each cell shows the subject scheduled there in a colour
    picked by a hash of the subject's name, or "No subject". */
module TimeTable {
  import opened Optional
  import opened JsText

  // ---------------------------------------------------------------------
  // Subject colours

  const SubjectColors: seq<string> := [
    "text-red-600",
    "text-blue-600",
    "text-green-600",
    "text-yellow-600",
    "text-purple-600",
    "text-pink-600",
    "text-indigo-600"]

  /** The sum of the UTF-16 code units of `s`, accumulated from left to right
      starting at 0. */
  function Hash(s: string): (h: nat)
    ensures forall c :: c in s ==> CodeUnitSum(c) <= h
    decreases |s|
  {
    if s == [] then 0 else CodeUnitSum(s[|s| - 1]) + Hash(s[..|s| - 1])
  }

  /** The colour class of a subject. */
  function SubjectColor(subject: string): (c: string)
    ensures c in SubjectColors
    ensures c == SubjectColors[Hash(subject) % 7]
  {
    SubjectColors[Hash(subject) % |SubjectColors|]
  }

  lemma {:induction false} HashAppend(a: string, b: string)
    ensures Hash(a + b) == Hash(a) + Hash(b)
    decreases |b|
  {
    if b == [] {
      assert a + b == a;
    } else {
      assert (a + b)[..|a + b| - 1] == a + b[..|b| - 1];
      HashAppend(a, b[..|b| - 1]);
    }
  }

  lemma HashSingleton(c: char)
    ensures Hash([c]) == CodeUnitSum(c)
  {
    assert [c][..0] == [];
  }

  /** Taking one character out of a string takes its code units out of the hash. */
  lemma HashRemove(b: string, j: nat)
    requires j < |b|
    ensures Hash(b) == CodeUnitSum(b[j]) + Hash(b[..j] + b[j + 1..])
  {
    var pre, mid, post := b[..j], [b[j]], b[j + 1..];
    assert b == pre + (mid + post);
    assert b[..j] + b[j + 1..] == pre + post;
    calc {
      Hash(b);
      { HashAppend(pre, mid + post); }
      Hash(pre) + Hash(mid + post);
      { HashAppend(mid, post); HashSingleton(b[j]); }
      Hash(pre) + CodeUnitSum(b[j]) + Hash(post);
      { HashAppend(pre, post); }
      CodeUnitSum(b[j]) + Hash(pre + post);
    }
  }

  lemma MultisetRemove(b: string, j: nat)
    requires j < |b|
    ensures multiset(b[..j] + b[j + 1..]) == multiset(b) - multiset{b[j]}
  {
    assert b == b[..j] + [b[j]] + b[j + 1..];
  }

  /** The hash is a sum, so it does not depend on the order of the characters. */
  lemma {:induction false} HashPermutation(a: string, b: string)
    requires multiset(a) == multiset(b)
    ensures Hash(a) == Hash(b)
    decreases |a|
  {
    if a != [] {
      var n := |a| - 1;
      var c := a[n];
      assert c in multiset(b) by {
        assert c in multiset(a);
      }
      var j :| 0 <= j < |b| && b[j] == c;
      MultisetRemove(a, n);
      MultisetRemove(b, j);
      assert a[..n] + a[n + 1..] == a[..n];
      HashPermutation(a[..n], b[..j] + b[j + 1..]);
      HashRemove(b, j);
    }
  }

  /** Rearranging the letters of a subject's name, an anagram included, keeps
      its colour; in particular equal names always get equal colours. */
  lemma SubjectColorIgnoresOrder(a: string, b: string)
    requires multiset(a) == multiset(b)
    ensures SubjectColor(a) == SubjectColor(b)
  {
    HashPermutation(a, b);
  }

  /** The empty name hashes to 0 and is shown in the first colour. */
  lemma EmptySubjectColor()
    ensures Hash("") == 0 && SubjectColor("") == "text-red-600"
  {
  }

  // ---------------------------------------------------------------------
  // The grid

  const DaysOfWeek: seq<string> := ["Mon", "Tue", "Wed", "Thu", "Fri"]
  const TimeSlots: seq<int> := [11, 12, 13, 14, 15]

  /** The timetable as the service sends it: per day, an object from the hour
      (as a JSON key, that is, the hour's decimal string) to the subject,
      `None` standing for a JSON null. */
  type Timetable = map<string, map<string, Option<string>>>

  datatype Cell = SubjectCell(subject: string, colorClass: string) | NoSubject

  /** What the page shows: placeholder rows while the timetable is loading, an
      error when a week day is missing (reading an hour of an undefined day
      throws), or the grid, one row per slot and one column per day. */
  datatype TimetableView = Loading | Failed | Grid(rows: seq<seq<Cell>>)

  /** The subject at `timetable[day][time]`, if that entry is truthy. */
  function Entry(tt: Timetable, day: string, time: int): (r: Option<string>)
    requires day in tt
    ensures r.Some? ==> r.value != ""
  {
    var key := IntToString(time);
    if key in tt[day] && tt[day][key].Some? && tt[day][key].value != "" then tt[day][key] else None
  }

  function CellAt(tt: Timetable, day: string, time: int): (c: Cell)
    requires day in tt
    ensures c.SubjectCell? ==> c.colorClass in SubjectColors
  {
    match Entry(tt, day, time)
    case Some(subject) => SubjectCell(subject, SubjectColor(subject))
    case None => NoSubject
  }

  function Row(tt: Timetable, time: int): (r: seq<Cell>)
    requires forall d :: d in DaysOfWeek ==> d in tt
    ensures |r| == |DaysOfWeek|
  {
    seq(|DaysOfWeek|, j requires 0 <= j < |DaysOfWeek| => CellAt(tt, DaysOfWeek[j], time))
  }

  function Render(timetable: Option<Timetable>): (v: TimetableView)
    ensures timetable.None? <==> v.Loading?
    ensures v.Grid? <==> timetable.Some? && forall d :: d in DaysOfWeek ==> d in timetable.value
    ensures v.Grid? ==> |v.rows| == 5 && forall i :: 0 <= i < 5 ==> |v.rows[i]| == 5
  {
    match timetable
    case None => Loading
    case Some(tt) =>
      if forall d :: d in DaysOfWeek ==> d in tt then
        Grid(seq(|TimeSlots|, i requires 0 <= i < |TimeSlots| => Row(tt, TimeSlots[i])))
      else Failed
  }

  /** Every cell of the grid shows the subject scheduled for its day and slot
      when there is one, in that subject's colour, and "No subject" otherwise. */
  lemma GridCells(tt: Timetable, i: int, j: int)
    requires forall d :: d in DaysOfWeek ==> d in tt
    requires 0 <= i < 5 && 0 <= j < 5
    ensures Render(Some(tt)).Grid?
    ensures var cell := Render(Some(tt)).rows[i][j];
      var key := IntToString(TimeSlots[i]);
      var value := if key in tt[DaysOfWeek[j]] then tt[DaysOfWeek[j]][key] else None;
      if value.Some? && value.value != "" then cell == SubjectCell(value.value, SubjectColor(value.value))
      else cell == NoSubject
  {
  }
}
