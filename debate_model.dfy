/**
 * The Debate record of the persistence schema: its enumerations, numeric bounds,
 * required fields and defaults, as a datatype and a validity predicate.
 */
module DebateModel {
  import opened Wrappers
  import opened Text

  type UserId = string
  type DebateId = string

  datatype Format = Voz | Texto
  datatype Mode = Libre | PorTurnos | Moderado
  datatype Status = Abierto | EnProgreso | Cerrado

  /** One entry of the participants list: a reference to a user and when they joined. */
  datatype Participant = Participant(user: UserId, joinedAt: int)

  datatype Debate = Debate(
    title: string,
    description: string,
    author: UserId,
    maxParticipants: int,
    currentParticipants: int,
    duration: int,
    format: Format,
    mode: Mode,
    tags: seq<string>,
    status: Status,
    participants: seq<Participant>)

  const MinParticipants := 2
  const MaxParticipants := 10
  const MinDuration := 5
  const MaxDuration := 120
  /** The default of `currentParticipants` in the schema. */
  const DefaultCurrentParticipants := 1

  function FormatName(f: Format): string {
    match f
    case Voz => "Voz"
    case Texto => "Texto"
  }

  function ModeName(m: Mode): string {
    match m
    case Libre => "Libre"
    case PorTurnos => "Por turnos"
    case Moderado => "Moderado"
  }

  function StatusName(s: Status): string {
    match s
    case Abierto => "Abierto"
    case EnProgreso => "En progreso"
    case Cerrado => "Cerrado"
  }

  /** The `enum` validator of `format`: exactly the two listed names are accepted. */
  function ParseFormat(s: string): (r: Option<Format>)
    ensures r.Some? <==> s in {"Voz", "Texto"}
    ensures r.Some? ==> FormatName(r.value) == s
  {
    if s == "Voz" then Some(Voz) else if s == "Texto" then Some(Texto) else None
  }

  /** The `enum` validator of `mode`: exactly the three listed names are accepted. */
  function ParseMode(s: string): (r: Option<Mode>)
    ensures r.Some? <==> s in {"Libre", "Por turnos", "Moderado"}
    ensures r.Some? ==> ModeName(r.value) == s
  {
    if s == "Libre" then Some(Libre)
    else if s == "Por turnos" then Some(PorTurnos)
    else if s == "Moderado" then Some(Moderado)
    else None
  }

  /** Every enumeration value round-trips through its stored name. */
  lemma NamesRoundTrip(f: Format, m: Mode)
    ensures ParseFormat(FormatName(f)) == Some(f)
    ensures ParseMode(ModeName(m)) == Some(m)
  {
  }

  /** A required, trimmed string field holds non-blank text with no surrounding white space. */
  predicate RequiredText(s: string) {
    s != "" && Trim(s) == s
  }

  /** What the schema guarantees of every stored debate. */
  predicate Valid(d: Debate) {
    && RequiredText(d.title)
    && RequiredText(d.description)
    && d.author != ""
    && MinParticipants <= d.maxParticipants <= MaxParticipants
    && MinDuration <= d.duration <= MaxDuration
    && (forall i :: 0 <= i < |d.tags| ==> Trim(d.tags[i]) == d.tags[i])
  }

  /** The fields a new debate is created from; `None` is a field missing from the request. */
  datatype DebateInput = DebateInput(
    title: Option<string>,
    description: Option<string>,
    maxParticipants: Option<int>,
    duration: Option<int>,
    format: Option<string>,
    mode: Option<string>,
    tags: Option<seq<string>>)

  /** The schema paths a validation error can name. */
  datatype Path = TitlePath | DescriptionPath | AuthorPath | MaxParticipantsPath | DurationPath | FormatPath | ModePath

  /** A required string is missing, or empty once the `trim` setter has run. */
  predicate MissingText(s: Option<string>) {
    s.None? || Trim(s.value) == ""
  }

  predicate OutOfRange(n: Option<int>, lo: int, hi: int) {
    n.None? || !(lo <= n.value <= hi)
  }

  /** Every path whose validator rejects the input; validation reports all of them together. */
  function Failures(input: DebateInput, author: UserId): set<Path> {
    (if MissingText(input.title) then {TitlePath} else {})
    + (if MissingText(input.description) then {DescriptionPath} else {})
    + (if author == "" then {AuthorPath} else {})
    + (if OutOfRange(input.maxParticipants, MinParticipants, MaxParticipants) then {MaxParticipantsPath} else {})
    + (if OutOfRange(input.duration, MinDuration, MaxDuration) then {DurationPath} else {})
    + (if input.format.None? || ParseFormat(input.format.value).None? then {FormatPath} else {})
    + (if input.mode.None? || ParseMode(input.mode.value).None? then {ModePath} else {})
  }

  /** The `trim` setter of each array element. */
  function TrimAll(tags: seq<string>): (r: seq<string>)
    ensures |r| == |tags|
    ensures forall i :: 0 <= i < |r| ==> r[i] == Trim(tags[i])
  {
    seq(|tags|, i requires 0 <= i < |tags| => Trim(tags[i]))
  }

  /** Every tag `TrimAll` leaves is unchanged by a further trim. */
  lemma TrimAllTrimmed(tags: seq<string>)
    ensures forall i :: 0 <= i < |tags| ==> Trim(TrimAll(tags)[i]) == TrimAll(tags)[i]
  {
    forall i | 0 <= i < |tags|
      ensures Trim(TrimAll(tags)[i]) == TrimAll(tags)[i]
    {
      TrimIdempotent(tags[i]);
    }
  }

  /** An input with no failing path carries every required field, in range. */
  lemma NoFailures(input: DebateInput, author: UserId)
    requires Failures(input, author) == {}
    ensures input.title.Some? && RequiredText(Trim(input.title.value))
    ensures input.description.Some? && RequiredText(Trim(input.description.value))
    ensures author != ""
    ensures input.maxParticipants.Some? && MinParticipants <= input.maxParticipants.value <= MaxParticipants
    ensures input.duration.Some? && MinDuration <= input.duration.value <= MaxDuration
    ensures input.format.Some? && ParseFormat(input.format.value).Some?
    ensures input.mode.Some? && ParseMode(input.mode.value).Some?
  {
    assert TitlePath !in Failures(input, author);
    assert DescriptionPath !in Failures(input, author);
    assert AuthorPath !in Failures(input, author);
    assert MaxParticipantsPath !in Failures(input, author);
    assert DurationPath !in Failures(input, author);
    assert FormatPath !in Failures(input, author);
    assert ModePath !in Failures(input, author);
    TrimIdempotent(input.title.value);
    TrimIdempotent(input.description.value);
  }

  /** The record stored for an input that passes validation. */
  function Build(input: DebateInput, author: UserId): (d: Debate)
    requires Failures(input, author) == {}
    ensures Valid(d) && d.author == author
    ensures d.status == Abierto && d.currentParticipants == DefaultCurrentParticipants && d.participants == []
    ensures d.title == Trim(input.title.value) && d.description == Trim(input.description.value)
    ensures d.maxParticipants == input.maxParticipants.value && d.duration == input.duration.value
    ensures FormatName(d.format) == input.format.value && ModeName(d.mode) == input.mode.value
    ensures d.tags == TrimAll(input.tags.GetOr([]))
  {
    NoFailures(input, author);
    TrimAllTrimmed(input.tags.GetOr([]));
    Debate(Trim(input.title.value), Trim(input.description.value), author,
      input.maxParticipants.value, DefaultCurrentParticipants, input.duration.value,
      ParseFormat(input.format.value).value, ParseMode(input.mode.value).value,
      TrimAll(input.tags.GetOr([])), Abierto, [])
  }

  /**
   * Validates the input and builds the stored record: strings trimmed, `currentParticipants`
   * defaulted to 1, `status` to Abierto, tags to `[]`, and no participants yet.
   */
  function New(input: DebateInput, author: UserId): (r: Result<Debate, set<Path>>)
    ensures r.Err? <==> Failures(input, author) != {}
    ensures r.Err? ==> r.error == Failures(input, author)
    ensures r.Ok? ==> Valid(r.value)
    ensures r.Ok? ==> r.value.status == Abierto && r.value.currentParticipants == DefaultCurrentParticipants
    ensures r.Ok? ==> r.value.participants == [] && r.value.author == author
    ensures r.Ok? ==> |r.value.tags| == |input.tags.GetOr([])|
    ensures r.Ok? ==> r.value.title == Trim(input.title.value) && r.value.description == Trim(input.description.value)
    ensures r.Ok? ==> r.value.maxParticipants == input.maxParticipants.value && r.value.duration == input.duration.value
    ensures r.Ok? ==> FormatName(r.value.format) == input.format.value && ModeName(r.value.mode) == input.mode.value
    ensures r.Ok? ==> forall i :: 0 <= i < |r.value.tags| ==> r.value.tags[i] == Trim(input.tags.value[i])
  {
    var fails := Failures(input, author);
    if fails != {} then Err(fails) else Ok(Build(input, author))
  }
}
