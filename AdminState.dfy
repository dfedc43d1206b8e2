/** The state of the admin page that its handlers change one key at a time:
    the filter record, the new-student form and the automatic-attendance
    form, together with the roster and overview the page shows, and the
    multipart payloads the two forms submit. */
module AdminState {
  import opened Optional
  import opened AdminView

  // ---------------------------------------------------------------------
  // Single-key update of the filter record

  /** The keys of the filter record. */
  datatype FilterKey = NameFilter | YearFilter | BranchFilter | RollNoFilter | Below75Filter

  /** A filter value: the text of a box or selector, or a checkbox state. */
  datatype FilterValue = TextValue(text: string) | CheckedValue(checked: bool)

  /** The value kind each key holds: only "below75" is a checkbox.  Every
      caller of the change handler passes the kind its key holds. */
  predicate FitsFilter(key: FilterKey, value: FilterValue) {
    (key == Below75Filter) == value.CheckedValue?
  }

  /** `filters[key]`. */
  function FilterGet(f: Filters, key: FilterKey): (v: FilterValue)
    ensures FitsFilter(key, v)
  {
    match key
    case NameFilter => TextValue(f.name)
    case YearFilter => TextValue(f.year)
    case BranchFilter => TextValue(f.branch)
    case RollNoFilter => TextValue(f.rollNo)
    case Below75Filter => CheckedValue(f.below75)
  }

  /** `{ ...f, [key]: value }`: the record with one key replaced. */
  function WithFilter(f: Filters, key: FilterKey, value: FilterValue): (r: Filters)
    requires FitsFilter(key, value)
    ensures forall k :: FilterGet(r, k) == if k == key then value else FilterGet(f, k)
  {
    match key
    case NameFilter => f.(name := value.text)
    case YearFilter => f.(year := value.text)
    case BranchFilter => f.(branch := value.text)
    case RollNoFilter => f.(rollNo := value.text)
    case Below75Filter => f.(below75 := value.checked)
  }

  /** Two filter records that agree on every key are the same record, so
      `FilterGet` sees all of the filter state. */
  lemma FilterGetDetermines(f: Filters, g: Filters)
    requires forall k :: FilterGet(f, k) == FilterGet(g, k)
    ensures f == g
  {
    assert FilterGet(f, NameFilter) == FilterGet(g, NameFilter);
    assert FilterGet(f, YearFilter) == FilterGet(g, YearFilter);
    assert FilterGet(f, BranchFilter) == FilterGet(g, BranchFilter);
    assert FilterGet(f, RollNoFilter) == FilterGet(g, RollNoFilter);
    assert FilterGet(f, Below75Filter) == FilterGet(g, Below75Filter);
  }

  // ---------------------------------------------------------------------
  // The new-student form

  /** A file chosen in a file input. */
  datatype FileRef = FileRef(name: string)

  /** `newStudent.picture`: `null` until the file input fires; the input's
      change handler stores `files[0]`, which is `undefined` when the
      selection was emptied. */
  datatype PictureSlot = Null | Undefined | Chosen(file: FileRef)

  datatype NewStudentForm = NewStudentForm(
    rollNo: string,
    name: string,
    branch: string,
    year: string,
    username: string,
    password: string,
    picture: PictureSlot)

  const BlankNewStudent: NewStudentForm := NewStudentForm("", "", "", "", "", "", Null)

  /** The text fields of the new-student form, in the order the form object
      declares them. */
  datatype TextField = RollNoField | NameField | BranchField | YearField | UsernameField | PasswordField

  function TextOf(ns: NewStudentForm, field: TextField): string {
    match field
    case RollNoField => ns.rollNo
    case NameField => ns.name
    case BranchField => ns.branch
    case YearField => ns.year
    case UsernameField => ns.username
    case PasswordField => ns.password
  }

  /** `{ ...ns, [field]: value }` for a text field. */
  function WithText(ns: NewStudentForm, field: TextField, value: string): (r: NewStudentForm)
    ensures forall g :: TextOf(r, g) == if g == field then value else TextOf(ns, g)
    ensures r.picture == ns.picture
  {
    match field
    case RollNoField => ns.(rollNo := value)
    case NameField => ns.(name := value)
    case BranchField => ns.(branch := value)
    case YearField => ns.(year := value)
    case UsernameField => ns.(username := value)
    case PasswordField => ns.(password := value)
  }

  /** A change event of one of the form's inputs: a text input (or one of
      the branch and year selectors) with its new value, or the file input
      with its list of files. */
  datatype StudentInput = TextInput(field: TextField, value: string) | FileInput(files: seq<FileRef>)

  /** A value of the form object as `Object.entries` yields it. */
  datatype FieldValue = Text(text: string) | Picture(slot: PictureSlot)

  /** `ns[key]`: the value of a property of the form object, absent for a key
      the object does not have. */
  function FieldAt(ns: NewStudentForm, key: string): Option<FieldValue> {
    if key == "rollNo" then Some(Text(ns.rollNo))
    else if key == "name" then Some(Text(ns.name))
    else if key == "branch" then Some(Text(ns.branch))
    else if key == "year" then Some(Text(ns.year))
    else if key == "username" then Some(Text(ns.username))
    else if key == "password" then Some(Text(ns.password))
    else if key == "picture" then Some(Picture(ns.picture))
    else None
  }

  /** `Object.entries(ns)`: every property of the form object once, with its
      value, in declaration order, which puts the picture last. */
  function Entries(ns: NewStudentForm): (r: seq<(string, FieldValue)>)
    ensures |r| == 7 && r[6].0 == "picture"
    ensures forall i, j :: 0 <= i < j < |r| ==> r[i].0 != r[j].0
    ensures forall i :: 0 <= i < |r| ==> FieldAt(ns, r[i].0) == Some(r[i].1)
    ensures forall k :: FieldAt(ns, k).Some? ==> exists i :: 0 <= i < |r| && r[i].0 == k
  {
    var r := [
      ("rollNo", Text(ns.rollNo)), ("name", Text(ns.name)), ("branch", Text(ns.branch)),
      ("year", Text(ns.year)), ("username", Text(ns.username)), ("password", Text(ns.password)),
      ("picture", Picture(ns.picture))];
    assert forall k :: FieldAt(ns, k).Some? ==> exists i :: 0 <= i < |r| && r[i].0 == k by {
      forall k | FieldAt(ns, k).Some? ensures exists i :: 0 <= i < |r| && r[i].0 == k {
        var i := if k == "rollNo" then 0 else if k == "name" then 1 else if k == "branch" then 2
          else if k == "year" then 3 else if k == "username" then 4 else if k == "password" then 5 else 6;
        assert r[i].0 == k;
      }
    }
    r
  }

  // ---------------------------------------------------------------------
  // Multipart payloads

  /** What `FormData.append` stores: a file stays a file, any other value is
      converted to its string form. */
  datatype FormValue = Str(text: string) | Blob(file: FileRef)

  datatype FormEntry = FormEntry(key: string, value: FormValue)

  /** The conversion `FormData.append` applies to a form value. */
  function AppendValue(v: FieldValue): (r: FormValue)
    ensures r.Blob? <==> v.Picture? && v.slot.Chosen?
    ensures v.Text? ==> r == Str(v.text)
    ensures v == Picture(Undefined) ==> r == Str("undefined")
    ensures v == Picture(Null) ==> r == Str("null")
  {
    match v
    case Text(s) => Str(s)
    case Picture(Chosen(file)) => Blob(file)
    case Picture(Undefined) => Str("undefined")
    case Picture(Null) => Str("null")
  }

  /** The multipart payload of the new-student form: the entries of the form
      object in their order, each as `FormData.append` stores it, leaving out
      the picture exactly when it is null. */
  function NewStudentFormData(ns: NewStudentForm): (r: seq<FormEntry>)
    ensures |r| == if ns.picture == Null then 6 else 7
    ensures forall i :: 0 <= i < |r| ==> r[i].key == Entries(ns)[i].0
    ensures forall i :: 0 <= i < |r| ==>
      FieldAt(ns, r[i].key).Some? && r[i].value == AppendValue(FieldAt(ns, r[i].key).value)
    ensures forall i, j :: 0 <= i < j < |r| ==> r[i].key != r[j].key
    ensures forall k :: (exists i :: 0 <= i < |r| && r[i].key == k) <==>
      FieldAt(ns, k).Some? && (k == "picture" ==> ns.picture != Null)
  {
    var es := Entries(ns);
    var r := seq(6, i requires 0 <= i < 6 => FormEntry(es[i].0, AppendValue(es[i].1)))
      + (if ns.picture == Null then [] else [FormEntry(es[6].0, AppendValue(es[6].1))]);
    assert forall k :: FieldAt(ns, k).Some? && (k == "picture" ==> ns.picture != Null) ==>
      exists i :: 0 <= i < |r| && r[i].key == k by {
      forall k | FieldAt(ns, k).Some? && (k == "picture" ==> ns.picture != Null)
        ensures exists i :: 0 <= i < |r| && r[i].key == k
      {
        var i :| 0 <= i < |es| && es[i].0 == k;
        assert r[i].key == k;
      }
    }
    r
  }

  /** A moment in time as the date picker gives it; only its ISO-8601
      rendering reaches the payload. */
  datatype Instant = Instant(iso: string)

  datatype AutomaticAttendanceForm = AutomaticAttendanceForm(
    date: Option<Instant>,
    lecture: string,
    branch: string,
    year: string,
    picture: Option<FileRef>)

  /** The automatic-attendance form on load and after a successful submit:
      today's date and nothing else. */
  function BlankAutomaticAttendance(now: Instant): AutomaticAttendanceForm {
    AutomaticAttendanceForm(Some(now), "", "", "", None)
  }

  /** The keys of the automatic-attendance form. */
  datatype AutoKey = AutoDate | AutoLecture | AutoBranch | AutoYear | AutoPicture

  /** A value of the automatic-attendance form: the picked date (absent when
      the day is unselected), a text, or the first chosen file (absent when
      the selection is empty). */
  datatype AutoValue = DateValue(day: Option<Instant>) | AutoText(text: string) | FileValue(file: Option<FileRef>)

  predicate FitsAuto(key: AutoKey, value: AutoValue) {
    match key
    case AutoDate => value.DateValue?
    case AutoPicture => value.FileValue?
    case _ => value.AutoText?
  }

  function AutoGet(form: AutomaticAttendanceForm, key: AutoKey): (v: AutoValue)
    ensures FitsAuto(key, v)
  {
    match key
    case AutoDate => DateValue(form.date)
    case AutoLecture => AutoText(form.lecture)
    case AutoBranch => AutoText(form.branch)
    case AutoYear => AutoText(form.year)
    case AutoPicture => FileValue(form.picture)
  }

  /** `{ ...form, [key]: value }`. */
  function WithAuto(form: AutomaticAttendanceForm, key: AutoKey, value: AutoValue): (r: AutomaticAttendanceForm)
    requires FitsAuto(key, value)
    ensures forall k :: AutoGet(r, k) == if k == key then value else AutoGet(form, k)
  {
    match key
    case AutoDate => form.(date := value.day)
    case AutoLecture => form.(lecture := value.text)
    case AutoBranch => form.(branch := value.text)
    case AutoYear => form.(year := value.text)
    case AutoPicture => form.(picture := value.file)
  }

  /** The keys of the automatic-attendance payload, in the order they are
      appended. */
  const AutoKeys: seq<AutoKey> := [AutoDate, AutoLecture, AutoBranch, AutoYear, AutoPicture]

  function AutoKeyName(key: AutoKey): string {
    match key
    case AutoDate => "date"
    case AutoLecture => "lecture"
    case AutoBranch => "branch"
    case AutoYear => "year"
    case AutoPicture => "picture"
  }

  /** What the submit appends for a value of the form: the ISO rendering of a
      date, a text as it is, a file as a file; nothing for a missing file or
      date. */
  function Rendered(v: AutoValue): Option<FormValue> {
    match v
    case DateValue(day) => if day.Some? then Some(Str(day.value.iso)) else None
    case AutoText(t) => Some(Str(t))
    case FileValue(file) => if file.Some? then Some(Blob(file.value)) else None
  }

  /** The multipart payload of the automatic-attendance form: the i-th entry
      is the i-th key with the form's value under it, the picture only when
      one was chosen.  With no date picked, rendering the date throws before
      anything is sent. */
  function AutoFormData(form: AutomaticAttendanceForm): (r: Option<seq<FormEntry>>)
    ensures r.None? <==> form.date.None?
    ensures r.Some? ==> |r.value| == if form.picture.Some? then 5 else 4
    ensures r.Some? ==> forall i :: 0 <= i < |r.value| ==>
      r.value[i].key == AutoKeyName(AutoKeys[i]) && Some(r.value[i].value) == Rendered(AutoGet(form, AutoKeys[i]))
  {
    if form.date.None? then None
    else
      var required := [
        FormEntry("date", Str(form.date.value.iso)),
        FormEntry("lecture", Str(form.lecture)),
        FormEntry("branch", Str(form.branch)),
        FormEntry("year", Str(form.year))];
      Some(if form.picture.Some? then required + [FormEntry("picture", Blob(form.picture.value))] else required)
  }

  /** The payload builder accepts a form just reset after a successful submit:
      it carries a date, so four entries are built, the date first and no
      picture. */
  lemma BlankFormBuildsPayload(now: Instant)
    ensures var r := AutoFormData(BlankAutomaticAttendance(now));
      r.Some? && |r.value| == 4 && r.value[0] == FormEntry("date", Str(now.iso))
  {
  }

  // ---------------------------------------------------------------------
  // The page

  class AdminPage {
    var students: seq<Student>
    var attendance: seq<AttendanceRecord>
    var filters: Filters
    var newStudent: NewStudentForm
    var automaticAttendance: AutomaticAttendanceForm

    /** The page as it mounts, before any data has arrived; `now` is the
        moment the date picker starts from. */
    constructor (now: Instant)
      ensures students == [] && attendance == []
      ensures filters == DefaultFilters
      ensures newStudent == BlankNewStudent
      ensures automaticAttendance == BlankAutomaticAttendance(now)
    {
      students := [];
      attendance := [];
      filters := DefaultFilters;
      newStudent := BlankNewStudent;
      automaticAttendance := BlankAutomaticAttendance(now);
    }

    /** Stores the roster and the overview once both requests of the page load
        have answered; the requests themselves are outside the model. */
    method ReceiveData(roster: seq<Student>, overview: seq<AttendanceRecord>)
      modifies this
      ensures students == roster && attendance == overview
      ensures filters == old(filters)
      ensures newStudent == old(newStudent) && automaticAttendance == old(automaticAttendance)
    {
      students := roster;
      attendance := overview;
    }

    /** Sets `filters[key]` to `value` and leaves every other key and the rest
        of the page as they were. */
    method HandleFilterChange(key: FilterKey, value: FilterValue)
      requires FitsFilter(key, value)
      modifies this
      ensures FilterGet(filters, key) == value
      ensures forall k :: k != key ==> FilterGet(filters, k) == FilterGet(old(filters), k)
      ensures students == old(students) && attendance == old(attendance)
      ensures newStudent == old(newStudent) && automaticAttendance == old(automaticAttendance)
    {
      filters := WithFilter(filters, key, value);
    }

    /** Restores the default filters, under which both tables show everything. */
    method ResetFilters()
      modifies this
      ensures filters == DefaultFilters
      ensures FilteredStudents(students, filters) == students
      ensures FilteredAttendance(attendance, filters) == attendance
      ensures students == old(students) && attendance == old(attendance)
      ensures newStudent == old(newStudent) && automaticAttendance == old(automaticAttendance)
    {
      filters := DefaultFilters;
      DefaultFiltersShowEverything(students, attendance);
    }

    /** A change in the new-student form: a text input stores its value under
        its own key; the file input stores its first file, or `undefined` when
        the list is empty.  The branch and year selectors update their key the
        same way. */
    method HandleNewStudentChange(e: StudentInput)
      modifies this
      ensures e.TextInput? ==> newStudent == WithText(old(newStudent), e.field, e.value)
      ensures e.FileInput? ==> newStudent == old(newStudent).(picture := if |e.files| > 0 then Chosen(e.files[0]) else Undefined)
      ensures students == old(students) && attendance == old(attendance)
      ensures filters == old(filters) && automaticAttendance == old(automaticAttendance)
    {
      match e
      case TextInput(field, value) =>
        newStudent := WithText(newStudent, field, value);
      case FileInput(files) =>
        newStudent := newStudent.(picture := if |files| > 0 then Chosen(files[0]) else Undefined);
    }

    /** Sets one key of the automatic-attendance form. */
    method HandleAutomaticAttendanceChange(key: AutoKey, value: AutoValue)
      requires FitsAuto(key, value)
      modifies this
      ensures AutoGet(automaticAttendance, key) == value
      ensures forall k :: k != key ==> AutoGet(automaticAttendance, k) == AutoGet(old(automaticAttendance), k)
      ensures students == old(students) && attendance == old(attendance)
      ensures filters == old(filters) && newStudent == old(newStudent)
    {
      automaticAttendance := WithAuto(automaticAttendance, key, value);
    }

    /** Builds the multipart payload of the new-student form by walking the
        entries of the form object and appending every one but a null picture. */
    method NewStudentPayload() returns (payload: seq<FormEntry>)
      ensures payload == NewStudentFormData(newStudent)
    {
      var entries := Entries(newStudent);
      ghost var expected := NewStudentFormData(newStudent);
      payload := [];
      var i := 0;
      while i < |entries|
        invariant 0 <= i <= |entries|
        invariant i <= 6 ==> payload == expected[..i]
        invariant i == 7 ==> payload == expected
      {
        var (key, value) := entries[i];
        if key != "picture" || value != Picture(Null) {
          payload := payload + [FormEntry(key, AppendValue(value))];
        }
        i := i + 1;
      }
    }

    /** Builds the multipart payload of the automatic-attendance form, one
        `append` after the other; `None` when no date is picked. */
    method AutomaticAttendancePayload() returns (r: Option<seq<FormEntry>>)
      ensures r == AutoFormData(automaticAttendance)
    {
      var form := automaticAttendance;
      if form.date.None? {
        return None;
      }
      var data: seq<FormEntry> := [];
      data := data + [FormEntry("date", Str(form.date.value.iso))];
      data := data + [FormEntry("lecture", Str(form.lecture))];
      data := data + [FormEntry("branch", Str(form.branch))];
      data := data + [FormEntry("year", Str(form.year))];
      assert data == [
        FormEntry("date", Str(form.date.value.iso)),
        FormEntry("lecture", Str(form.lecture)),
        FormEntry("branch", Str(form.branch)),
        FormEntry("year", Str(form.year))];
      if form.picture.Some? {
        data := data + [FormEntry("picture", Blob(form.picture.value))];
      }
      r := Some(data);
    }

    /** Submits the new-student form; `accepted` is whether the service took
        the student.  Only an accepted student clears the form.  The browser
        submits the form only when its `required` inputs (roll number, name,
        username, password) are filled in. */
    method SubmitNewStudent(accepted: bool) returns (payload: seq<FormEntry>)
      requires newStudent.rollNo != "" && newStudent.name != ""
      requires newStudent.username != "" && newStudent.password != ""
      modifies this
      ensures payload == NewStudentFormData(old(newStudent))
      ensures newStudent == if accepted then BlankNewStudent else old(newStudent)
      ensures students == old(students) && attendance == old(attendance)
      ensures filters == old(filters) && automaticAttendance == old(automaticAttendance)
    {
      payload := NewStudentPayload();
      if accepted {
        newStudent := BlankNewStudent;
      }
    }

    /** Submits the automatic-attendance form; `accepted` is whether the
        service recorded it and `now` is the clock at that moment.  Nothing is
        sent and nothing changes when no date is picked.  The browser submits
        the form only when its `required` lecture input is filled in. */
    method SubmitAutomaticAttendance(now: Instant, accepted: bool) returns (r: Option<seq<FormEntry>>)
      requires automaticAttendance.lecture != ""
      modifies this
      ensures r == AutoFormData(old(automaticAttendance))
      ensures automaticAttendance ==
        if r.Some? && accepted then BlankAutomaticAttendance(now) else old(automaticAttendance)
      ensures students == old(students) && attendance == old(attendance)
      ensures filters == old(filters) && newStudent == old(newStudent)
    {
      r := AutomaticAttendancePayload();
      if r.Some? && accepted {
        automaticAttendance := BlankAutomaticAttendance(now);
      }
    }
  }
}
