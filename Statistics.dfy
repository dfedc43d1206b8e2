/** The attendance pie chart of one student: the aggregate the attendance
    service reports becomes an "Attended" / "Not Attended" pair of slices,
    and the slices take their colours from a two-entry palette by index. */
module Statistics {
  import opened Optional

  /** The aggregate the service reports for one roll number.  The percentage
      is shown as text only and plays no part in the chart. */
  datatype AttendanceStats = AttendanceStats(presentCount: int, totalClasses: int, attendancePercentage: real)

  datatype Slice = Slice(name: string, value: int)

  const Attended: string := "Attended"
  const NotAttended: string := "Not Attended"

  /** The chart data; no slices while the aggregate has not arrived. */
  function PieChartData(data: Option<AttendanceStats>): (r: seq<Slice>)
    ensures data.None? <==> r == []
    ensures data.Some? ==> |r| == 2 && r[0].name == Attended && r[1].name == NotAttended
    ensures data.Some? ==> r[0].value == data.value.presentCount
    ensures data.Some? ==> r[0].value + r[1].value == data.value.totalClasses
  {
    match data
    case None => []
    case Some(stats) => [
      Slice(Attended, stats.presentCount),
      Slice(NotAttended, stats.totalClasses - stats.presentCount)]
  }

  /** The "Not Attended" slice is non-negative exactly when the present count
      does not exceed the total; a reported aggregate with more presences than
      classes yields a negative slice. */
  lemma NotAttendedNonNegative(stats: AttendanceStats)
    ensures PieChartData(Some(stats))[1].value >= 0 <==> stats.presentCount <= stats.totalClasses
  {
  }

  /** The fill colours: the theme's primary colour, then its destructive colour. */
  const Colors: seq<string> := ["hsl(var(--primary))", "hsl(var(--destructive))"]

  /** `COLORS[index % COLORS.length]`. */
  function CellFill(index: nat): (c: string)
    ensures c in Colors
    ensures c == Colors[0] <==> index % 2 == 0
  {
    Colors[index % |Colors|]
  }

  /** The fill of every slice, by position. */
  function CellFills(slices: seq<Slice>): (r: seq<string>)
    ensures |r| == |slices|
    ensures forall i :: 0 <= i < |r| ==> r[i] in Colors
    ensures forall i :: 0 <= i < |r| ==> (r[i] == Colors[0] <==> i % 2 == 0)
  {
    seq(|slices|, i requires 0 <= i < |slices| => CellFill(i))
  }

  /** The two slices of a loaded chart never share a colour: attended is drawn
      in the primary colour, not attended in the destructive one. */
  lemma ChartSlicesDistinctColors(stats: AttendanceStats)
    ensures var fills := CellFills(PieChartData(Some(stats)));
      |fills| == 2 && fills[0] == Colors[0] && fills[1] == Colors[1] && fills[0] != fills[1]
  {
  }
}
