/** How a task is rendered: the card of Task.js, the details modal of
    Details.js, and the row of the completed list in DoneTasks.js. Each falls
    back to a placeholder text in its own way. */
module Display {
  import opened Seqs
  import opened Text
  import opened Clock
  import opened Tasks

  /** Texts are cut to this many characters on cards and in the done list. */
  const ShownChars: nat := 26

  const NoCategoryLabel: string := "Sem Categoria"
  const NoDescriptionLabel: string := "Sem Descrição"

  /** `parseTime` of both components: the 12-hour text, or nothing (`null`)
      when the stored value is not a time. */
  function ParseTime(t: TimeSlot): (r: Option<string>)
    ensures r.Some? <==> t.Time?
    ensures t.Time? ==> ParseTwelveHour(r.value) == Some(t.clock)
  {
    match t
    case Time(clock) => TwelveHourRoundTrip(clock); Some(TwelveHour(clock))
    case NoTime(_) => None
  }

  // ---- Task.js: the task card ----

  /** The card's priority line, compared with `==`: 1, 2, anything else. */
  function CardPriority(p: int): string
  {
    if p == 1 then "Alta Prioridade" else if p == 2 then "Média Prioridade" else "Baixa Prioridade"
  }

  /** The card's category: truncated, or the placeholder when empty or blank. */
  function CardCategory(c: string): string
  {
    if c != "" && Trim(c) != "" then SliceByChars(c, ShownChars) else NoCategoryLabel
  }

  /** The card's description: truncated, or the placeholder when empty or blank. */
  function CardDescription(d: string): string
  {
    if d != "" && Trim(d) != "" then SliceByChars(d, ShownChars) else NoDescriptionLabel
  }

  /** A card text: the placeholder exactly for a blank value (an empty value is
      blank), otherwise the value truncated to 26 characters plus "...". */
  lemma CardTextSpec(s: string)
    ensures IsBlank(s) ==> CardCategory(s) == NoCategoryLabel && CardDescription(s) == NoDescriptionLabel
    ensures !IsBlank(s) ==> CardCategory(s) == SliceByChars(s, ShownChars) && CardDescription(s) == SliceByChars(s, ShownChars)
    ensures |CardCategory(s)| <= ShownChars + 3 && |CardDescription(s)| <= ShownChars + 3
  {
    TrimEmptyIffBlank(s);
    SliceByCharsSpec(s, ShownChars);
  }

  /** Whether the stored `deadline_date` is truthy: any date, or non-empty text. */
  predicate DateIsSet(d: DateSlot)
  {
    match d
    case Date(_) => true
    case NoDate(text) => text != ""
  }

  /** Whether the stored `deadline_time` is truthy: any time, or non-empty text. */
  predicate TimeIsSet(t: TimeSlot)
  {
    match t
    case Time(_) => true
    case NoTime(text) => text != ""
  }

  /** The date line of the card: `parseDate(...) || "Sem data"` under a set
      date, "Sem data" otherwise; `format` stands for `parseDate`'s rendering. */
  function CardDate(t: Task, format: int -> string): string
  {
    match t.deadlineDate
    case Date(stamp) => if format(stamp) != "" then format(stamp) else "Sem data"
    case NoDate(_) => "Sem data"
  }

  /** The time line of the card. It is shown only under a set date; an unset
      or unreadable time reads "Sem horário". */
  function CardTime(t: Task): Option<string>
  {
    if !DateIsSet(t.deadlineDate) then None
    else
      var shown := if TimeIsSet(t.deadlineTime) then ParseTime(t.deadlineTime) else None;
      Some(if shown.Some? then shown.value else "Sem horário")
  }

  /** A card shows a time line exactly when the date is set, and it reads the
      12-hour time when the time is real and "Sem horário" otherwise. */
  lemma CardTimeSpec(t: Task)
    ensures CardTime(t).Some? <==> DateIsSet(t.deadlineDate)
    ensures DateIsSet(t.deadlineDate) && t.deadlineTime.Time? ==>
      ParseTwelveHour(CardTime(t).value) == Some(t.deadlineTime.clock)
    ensures DateIsSet(t.deadlineDate) && t.deadlineTime.NoTime? ==> CardTime(t) == Some("Sem horário")
    ensures forall format: int -> string :: CardDate(t, format) != "" && (t.deadlineDate.NoDate? ==> CardDate(t, format) == "Sem data")
  {
    if DateIsSet(t.deadlineDate) && t.deadlineTime.Time? {
      TwelveHourRoundTrip(t.deadlineTime.clock);
    }
  }

  // ---- Details.js: the details modal ----

  /** The modal's priority, compared with `===`: a label only for exactly 1, 2 or 3. */
  function DetailsPriority(p: int): Option<string>
  {
    if p == 1 then Some("Alta") else if p == 2 then Some("Média") else if p == 3 then Some("Baixa") else None
  }

  /** The card says "<label> Prioridade" where the modal says the label; for any
      priority other than 1, 2 or 3 the card says "Baixa" and the modal nothing. */
  lemma PriorityLabelsAgree(p: int)
    ensures p in {1, 2, 3} ==> DetailsPriority(p).Some? && CardPriority(p) == DetailsPriority(p).value + " Prioridade"
    ensures p !in {1, 2, 3} <==> DetailsPriority(p).None?
    ensures p !in {1, 2, 3} ==> CardPriority(p) == CardPriority(3)
    ensures forall q :: DetailsPriority(p).Some? && DetailsPriority(p) == DetailsPriority(q) ==> p == q
  {
  }

  /** The modal's category and description: the value untruncated, the
      placeholder only when it is empty (`||` tests falsiness, not blankness). */
  function DetailsCategory(c: string): string
  {
    if c != "" then c else NoCategoryLabel
  }

  function DetailsDescription(d: string): string
  {
    if d != "" then d else NoDescriptionLabel
  }

  /** A blank but non-empty value shows the placeholder on the card and itself in the modal. */
  lemma BlankShownDifferently(s: string)
    requires s != "" && IsBlank(s)
    ensures CardCategory(s) == NoCategoryLabel && DetailsCategory(s) == s
    ensures CardDescription(s) == NoDescriptionLabel && DetailsDescription(s) == s
  {
    TrimEmptyIffBlank(s);
  }

  /** The modal's date line. `format` stands for `parseDate`'s "d/m/y"
      rendering, which this model does not fix; an empty or missing result
      falls back to "Sem Data". */
  function DetailsDate(d: DateSlot, format: int -> string): string
  {
    match d
    case Date(stamp) => if format(stamp) != "" then format(stamp) else NoDateText
    case NoDate(_) => NoDateText
  }

  /** The modal's time line: the 12-hour time, or "Sem Horário". */
  function DetailsTime(t: TimeSlot): string
  {
    var shown := ParseTime(t);
    if shown.Some? then shown.value else NoTimeText
  }

  /** The category, description, date and time lines of the modal are never
      empty: an empty category or description shows its placeholder and any
      other is shown whole, and the time line reads back to the stored time
      exactly when there is one. */
  lemma DetailsLinesSpec(t: Task, format: int -> string)
    ensures DetailsCategory(t.category) != "" && DetailsDescription(t.description) != ""
    ensures t.category == "" ==> DetailsCategory(t.category) == "Sem Categoria"
    ensures t.category != "" ==> DetailsCategory(t.category) == t.category
    ensures t.description == "" ==> DetailsDescription(t.description) == "Sem Descrição"
    ensures t.description != "" ==> DetailsDescription(t.description) == t.description
    ensures DetailsDate(t.deadlineDate, format) != ""
    ensures t.deadlineDate.NoDate? ==> DetailsDate(t.deadlineDate, format) == "Sem Data"
    ensures t.deadlineTime.Time? ==> ParseTwelveHour(DetailsTime(t.deadlineTime)) == Some(t.deadlineTime.clock)
    ensures t.deadlineTime.NoTime? ==> DetailsTime(t.deadlineTime) == "Sem Horário"
  {
    if t.deadlineTime.Time? {
      TwelveHourRoundTrip(t.deadlineTime.clock);
    }
  }

  /** The modal's content. */
  datatype DetailsScreen =
    | NoTaskError(message: string)
    | Details(category: string, priority: Option<string>, date: string, time: string, description: string)

  /** `Details`: an error text when no task is selected, otherwise the five lines. */
  function DetailsView(content: Option<Task>, format: int -> string): (screen: DetailsScreen)
    ensures screen.NoTaskError? <==> content.None?
  {
    match content
    case None => NoTaskError("Erro: Nenhuma tarefa selecionada!")
    case Some(t) =>
      Details(DetailsCategory(t.category), DetailsPriority(t.priority),
              DetailsDate(t.deadlineDate, format), DetailsTime(t.deadlineTime),
              DetailsDescription(t.description))
  }

  // ---- DoneTasks.js: a row of the completed list ----

  /** `sliceStringByChars(item.description || "Sem Descrição", 26)`. */
  function DoneRow(d: string): string
  {
    SliceByChars(if d != "" then d else NoDescriptionLabel, ShownChars)
  }

  /** An empty description shows the placeholder (short enough to stay whole);
      any other is truncated, a blank one included. */
  lemma DoneRowSpec(d: string)
    ensures d == "" ==> DoneRow(d) == NoDescriptionLabel
    ensures d != "" ==> DoneRow(d) == SliceByChars(d, ShownChars)
    ensures |DoneRow(d)| <= ShownChars + 3
    ensures d != "" && |d| <= ShownChars ==> DoneRow(d) == d
  {
    SliceByCharsSpec(if d != "" then d else NoDescriptionLabel, ShownChars);
  }
}
