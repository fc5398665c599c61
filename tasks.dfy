/** The task record the app stores under `@logs_task` and `@logs_done`, and how
    CreateTask.js builds a new one from its form state. */
module Tasks {
  import opened Seqs
  import opened Clock

  /** The category value that means "no category chosen". */
  const NoCategory: string := "Nenhuma Selecionada"
  const NoDateText: string := "Sem Data"
  const NoTimeText: string := "Sem Horário"

  /** `deadline_date`: a date (its timestamp in milliseconds) or text that is not
      a date, such as the "Sem Data" placeholder. */
  datatype DateSlot = Date(stamp: int) | NoDate(text: string)

  /** `deadline_time`: a time of day, or text that is not a time, such as "Sem Horário". */
  datatype TimeSlot = Time(clock: TimeOfDay) | NoTime(text: string)

  /** One task. Two tasks are the same task exactly when every field is equal:
      the store finds tasks by comparing their serialized form. */
  datatype Task = Task(
    description: string,
    category: string,
    priority: int,
    deadlineDate: DateSlot,
    deadlineTime: TimeSlot,
    id: string)

  /** A value of `Math.floor(Math.random() * 10)`. */
  type Digit = d: int | 0 <= d < 10

  /** The CreateTask form: description text, chosen category ("" when none),
      priority, and the date and time if the pickers were used. */
  datatype Form = Form(text: string, category: string, priority: int, date: Option<int>, time: Option<TimeOfDay>)

  /** The form when the component mounts: nothing typed, priority 2 ("Média"). */
  const InitialForm: Form := Form("", "", 2, None, None)

  /** The form after a task was created: the fields are cleared but the priority becomes 1 ("Alta"). */
  const ClearedForm: Form := Form("", "", 1, None, None)

  /** The `_id` text "a/b/c" built from three random digits. */
  function IdText(a: Digit, b: Digit, c: Digit): string
  {
    [DigitChar(a), '/', DigitChar(b), '/', DigitChar(c)]
  }

  /** Reads an id back into its three digits. */
  function ParseId(s: string): Option<(Digit, Digit, Digit)>
  {
    if |s| == 5 && IsDigit(s[0]) && s[1] == '/' && IsDigit(s[2]) && s[3] == '/' && IsDigit(s[4])
    then Some((DigitValue(s[0]), DigitValue(s[2]), DigitValue(s[4])))
    else None
  }

  /** Every id is five characters, "d/d/d", and determines its three digits, so
      there are exactly as many ids as digit triples: one thousand. */
  lemma IdRoundTrip(a: Digit, b: Digit, c: Digit)
    ensures |IdText(a, b, c)| == 5
    ensures ParseId(IdText(a, b, c)) == Some((a, b, c))
  {
  }

  /** Two creations that draw the same digits produce the same id: ids are not unique. */
  lemma IdsCollide(f: Form, g: Form, a: Digit, b: Digit, c: Digit)
    ensures NewTask(f, a, b, c).id == NewTask(g, a, b, c).id
  {
  }

  /** `createNewTask`'s record: the form's fields with the placeholders for what was left empty. */
  function NewTask(f: Form, a: Digit, b: Digit, c: Digit): Task
  {
    Task(
      f.text,
      if f.category == "" then NoCategory else f.category,
      f.priority,
      match f.date case Some(stamp) => Date(stamp) case None => NoDate(NoDateText),
      match f.time case Some(t) => Time(t) case None => NoTime(NoTimeText),
      IdText(a, b, c))
  }

  /** The defaults of a new task: it is never stored without a category, a
      missing date or time becomes its placeholder, everything chosen is kept,
      and the id reads back to the digits drawn. */
  lemma NewTaskDefaults(f: Form, a: Digit, b: Digit, c: Digit)
    ensures var t := NewTask(f, a, b, c);
      && t.category != ""
      && (f.category != "" ==> t.category == f.category)
      && (t.category == NoCategory <==> f.category == "" || f.category == NoCategory)
      && (t.deadlineDate == NoDate("Sem Data") <==> f.date.None?)
      && (f.date.Some? ==> t.deadlineDate == Date(f.date.value))
      && (t.deadlineTime == NoTime("Sem Horário") <==> f.time.None?)
      && (f.time.Some? ==> t.deadlineTime == Time(f.time.value))
      && t.description == f.text && t.priority == f.priority
      && ParseId(t.id) == Some((a, b, c))
  {
    IdRoundTrip(a, b, c);
  }

  /** A task made from the freshly mounted form has priority 2; one made after
      a create (from the cleared form) has priority 1. Both have an empty
      description and the placeholders for category, date and time. */
  lemma FormDefaults(a: Digit, b: Digit, c: Digit)
    ensures NewTask(InitialForm, a, b, c).priority == 2
    ensures NewTask(ClearedForm, a, b, c).priority == 1
    ensures forall f :: f in {InitialForm, ClearedForm} ==>
      var t := NewTask(f, a, b, c);
      && t.description == ""
      && t.category == NoCategory
      && t.deadlineDate == NoDate(NoDateText)
      && t.deadlineTime == NoTime(NoTimeText)
  {
  }

  /** A task whose deadline is a real date, which `sortByDeadline` can compare. */
  predicate HasDate(t: Task) { t.deadlineDate.Date? }

  /** The key `sortByDeadline`'s comparator `new Date(a) - new Date(b)` compares. */
  function DeadlineKey(t: Task): int
  {
    match t.deadlineDate
    case Date(stamp) => stamp
    case NoDate(_) => 0
  }

  /** The key `sortByPriority`'s comparator `a.priority - b.priority` compares. */
  function PriorityKey(t: Task): int { t.priority }
}
