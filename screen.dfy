/** The commitments screen: its local copy of the server's list, the
    create/edit form draft, and the handlers that change them. Each handler is
    one atomic step; the outcome of its network call is a parameter. */
module Screen {
  import opened Wrappers
  import opened DateTime
  import opened Codec
  import opened Commitments

  const PENDING := "pending"
  const SCHEDULED := "scheduled"
  const DONE := "done"

  datatype Mode = Create | Edit

  /** How a network call came back: with the response body, or with an
      error (which the handler reports and otherwise ignores). */
  datatype Response<T> = Success(data: T) | Failure

  /** The body of the create (`POST`) and update (`PUT`) requests. */
  datatype Payload = Payload(titulo: string, anotacoes: string, dia: string, hora: string, status: string)

  datatype BadgeStyle = BadgeStyle(backgroundColor: string, textColor: string, labelText: string)

  const PENDING_STYLE := BadgeStyle("#FF950020", "#FF9500", "Pendente")
  const SCHEDULED_STYLE := BadgeStyle("#007AFF20", "#007AFF", "Agendado")
  const DONE_STYLE := BadgeStyle("#34C75920", "#34C759", "Concluído")

  /** `StatusBadge`'s lookup: the style of a known status, and the pending
      style for any other string. */
  function StatusStyle(status: string): (s: BadgeStyle)
    ensures s in {PENDING_STYLE, SCHEDULED_STYLE, DONE_STYLE}
    ensures status == SCHEDULED ==> s.labelText == "Agendado"
    ensures status == DONE ==> s.labelText == "Concluído"
    ensures status != SCHEDULED && status != DONE ==> s.labelText == "Pendente"
  {
    var styles := map[PENDING := PENDING_STYLE, SCHEDULED := SCHEDULED_STYLE, DONE := DONE_STYLE];
    if status in styles then styles[status] else styles[PENDING]
  }

  /** The three statuses show three different labels, so the label tells the
      known status apart; anything else shows as pending. */
  lemma StatusLabelsDistinct(a: string, b: string)
    requires a in {PENDING, SCHEDULED, DONE} && b in {PENDING, SCHEDULED, DONE} && a != b
    ensures StatusStyle(a).labelText != StatusStyle(b).labelText
  {
  }

  /** The event handed to the device calendar. */
  datatype CalendarEvent = CalendarEvent(
    title: string,
    notes: string,
    startDate: int,
    endDate: int,
    timeZone: string)

  /** `addEventToCalendar` up to the device call: nothing unless the calendar
      permission is granted, otherwise a one-hour UTC event starting at the
      commitment's decoded instant. */
  method AddEventToCalendar(item: Commitment, permission: string) returns (event: Option<CalendarEvent>)
    requires permission == "granted" ==> ValidDia(item.dia) && ValidHora(item.hora)
    ensures permission != "granted" ==> event == None
    ensures permission == "granted" ==>
      event == Some(CalendarEvent(item.titulo, item.anotacoes, Decode(item.dia, item.hora),
                                  Decode(item.dia, item.hora) + MS_PER_HOUR, "UTC"))
  {
    if permission != "granted" {
      return None;
    }
    var start, end := EventWindow(item.dia, item.hora);
    event := Some(CalendarEvent(item.titulo, item.anotacoes, start, end, "UTC"));
  }

  /** A snapshot of every piece of screen state, for stating what a handler
      changes and what it leaves alone. */
  datatype ScreenState = ScreenState(
    commitments: seq<Commitment>,
    loading: bool,
    modalVisible: bool,
    editing: Option<Commitment>,
    mode: Mode,
    title: string,
    annotation: string,
    date: Instant,
    time: Instant,
    showDatePicker: bool,
    showTimePicker: bool)

  class AgendaScreen {
    var commitments: seq<Commitment>
    var loading: bool
    var modalVisible: bool
    var editing: Option<Commitment>
    var mode: Mode
    var title: string
    var annotation: string
    var date: Instant
    var time: Instant
    var showDatePicker: bool
    var showTimePicker: bool

    function State(): ScreenState
      reads this
    {
      ScreenState(commitments, loading, modalVisible, editing, mode, title, annotation,
                  date, time, showDatePicker, showTimePicker)
    }

    /** The form invariant: there is an editing target exactly while the form
        is open in edit mode. */
    predicate Valid()
      reads this
    {
      editing.Some? <==> (modalVisible && mode == Edit)
    }

    /** The initial state; `nowDate` and `nowTime` stand for the two
        `new Date()` calls, which read the clock separately. */
    constructor (nowDate: Instant, nowTime: Instant)
      ensures Valid()
      ensures State() == ScreenState([], true, false, None, Create, "", "", nowDate, nowTime, false, false)
    {
      commitments := [];
      loading := true;
      modalVisible := false;
      editing := None;
      mode := Create;
      title := "";
      annotation := "";
      date := nowDate;
      time := nowTime;
      showDatePicker := false;
      showTimePicker := false;
    }

    /** `fetchCommitments`: on success the list becomes the response;
        either way loading ends. */
    method FetchCommitments(response: Response<seq<Commitment>>)
      requires Valid()
      modifies this
      ensures Valid()
      ensures State() == old(State()).(
        commitments := if response.Success? then response.data else old(commitments),
        loading := false)
    {
      if response.Success? {
        commitments := response.data;
      }
      loading := false;
    }

    /** `handleOpenCreateModal`; `nowDate` and `nowTime` stand for its two
        `new Date()` calls. */
    method OpenCreate(nowDate: Instant, nowTime: Instant)
      requires Valid()
      modifies this
      ensures Valid()
      ensures State() == old(State()).(mode := Create, editing := None, title := "", annotation := "",
                                      date := nowDate, time := nowTime, modalVisible := true)
    {
      mode := Create;
      editing := None;
      title := "";
      annotation := "";
      date := nowDate;
      time := nowTime;
      modalVisible := true;
    }

    /** `handleEdit`: the form takes the commitment's text, and both pickers
        take the instant its `dia` and `hora` decode to. */
    method OpenEdit(c: Commitment)
      requires Valid()
      requires ValidDia(c.dia) && ValidHora(c.hora)
      modifies this
      ensures Valid()
      ensures State() == old(State()).(mode := Edit, editing := Some(c), title := c.titulo,
                                      annotation := c.anotacoes, date := Decode(c.dia, c.hora),
                                      time := Decode(c.dia, c.hora), modalVisible := true)
    {
      var commitmentDate := Decode(c.dia, c.hora);
      mode := Edit;
      editing := Some(c);
      title := c.titulo;
      annotation := c.anotacoes;
      date := commitmentDate;
      time := commitmentDate;
      modalVisible := true;
    }

    /** `handleCancelModal`. */
    method CancelModal()
      requires Valid()
      modifies this
      ensures Valid()
      ensures State() == old(State()).(modalVisible := false, editing := None)
    {
      modalVisible := false;
      editing := None;
    }

    /** `setTitle`, as called by the form's title input. */
    method SetTitle(s: string)
      requires Valid()
      modifies this
      ensures Valid()
      ensures State() == old(State()).(title := s)
    {
      title := s;
    }

    /** `setAnnotation`, as called by the form's annotation input. */
    method SetAnnotation(s: string)
      requires Valid()
      modifies this
      ensures Valid()
      ensures State() == old(State()).(annotation := s)
    {
      annotation := s;
    }

    /** `onDateChange`: the picker closes; the date changes only on a `set`
        event, and keeps its value when nothing was selected. */
    method OnDateChange(eventType: string, selectedDate: Option<Instant>)
      requires Valid()
      modifies this
      ensures Valid()
      ensures State() == old(State()).(
        showDatePicker := false,
        date := if eventType == "set" && selectedDate.Some? then selectedDate.value else old(date))
    {
      showDatePicker := false;
      if eventType == "set" {
        date := if selectedDate.Some? then selectedDate.value else date;
      }
    }

    /** `onTimeChange`: as `onDateChange`, for the time picker. */
    method OnTimeChange(eventType: string, selectedTime: Option<Instant>)
      requires Valid()
      modifies this
      ensures Valid()
      ensures State() == old(State()).(
        showTimePicker := false,
        time := if eventType == "set" && selectedTime.Some? then selectedTime.value else old(time))
    {
      showTimePicker := false;
      if eventType == "set" {
        time := if selectedTime.Some? then selectedTime.value else time;
      }
    }

    /** `handleCreateSubmit`: an empty title is refused before any request;
        otherwise the request carries the encoded date and time and status
        `scheduled`, and on success the returned record is appended and the
        form closes. */
    method CreateSubmit(response: Response<Commitment>) returns (request: Option<Payload>)
      requires Valid()
      modifies this
      ensures Valid()
      ensures old(title) == "" ==> request == None && State() == old(State())
      ensures old(title) != "" ==>
        request == Some(Payload(old(title), old(annotation), EncodeDay(old(date)), EncodeHour(old(time)), SCHEDULED))
      ensures old(title) != "" && response.Success? ==>
        State() == old(State()).(commitments := old(commitments) + [response.data],
                                 modalVisible := false, editing := None)
      ensures old(title) != "" && response.Failure? ==> State() == old(State())
    {
      if title == "" {
        return None;
      }
      var formattedDate := EncodeDay(date);
      var formattedTime := EncodeHour(time);
      request := Some(Payload(title, annotation, formattedDate, formattedTime, SCHEDULED));
      if response.Success? {
        commitments := commitments + [response.data];
        CancelModal();
      }
    }

    /** `handleUpdateSubmit`: nothing without an editing target, which by
        `Valid()` includes a closed form and the create mode; otherwise
        the request carries the target's id and original status with the
        encoded date and time, and on success every entry with that id is
        replaced by the returned record and the form closes. */
    method UpdateSubmit(response: Response<Commitment>) returns (request: Option<(Id, Payload)>)
      requires Valid()
      modifies this
      ensures Valid()
      ensures old(editing).None? ==> request == None && State() == old(State())
      ensures !old(modalVisible) || old(mode) == Create ==> request == None && State() == old(State())
      ensures old(editing).Some? ==>
        request == Some((old(editing).value.id,
                         Payload(old(title), old(annotation), EncodeDay(old(date)), EncodeHour(old(time)),
                                 old(editing).value.status)))
      ensures old(editing).Some? && response.Success? ==>
        State() == old(State()).(commitments := ReplaceById(old(commitments), old(editing).value.id, response.data),
                                 modalVisible := false, editing := None)
      ensures old(editing).Some? && response.Failure? ==> State() == old(State())
    {
      if editing.None? {
        return None;
      }
      var target := editing.value;
      var formattedDate := EncodeDay(date);
      var formattedTime := EncodeHour(time);
      request := Some((target.id, Payload(title, annotation, formattedDate, formattedTime, target.status)));
      if response.Success? {
        commitments := ReplaceById(commitments, target.id, response.data);
        CancelModal();
      }
    }

    /** The confirmed branch of `deleteCommitment`: on success every entry
        with the id is dropped; on failure nothing changes. */
    method ConfirmDelete(id: Id, succeeded: bool)
      requires Valid()
      modifies this
      ensures Valid()
      ensures State() == old(State()).(
        commitments := if succeeded then RemoveById(old(commitments), id) else old(commitments))
    {
      if succeeded {
        commitments := RemoveById(commitments, id);
      }
    }
  }

  /** Opening a commitment for edit and saving it without touching the
      pickers sends back its own `dia`, its `hora` zero-padded, and its
      status. */
  method EditAndSave(screen: AgendaScreen, c: Commitment, response: Response<Commitment>)
    returns (request: Option<(Id, Payload)>)
    requires screen.Valid() && ValidDia(c.dia) && ValidHora(c.hora)
    modifies screen
    ensures screen.Valid()
    ensures request == Some((c.id, Payload(c.titulo, c.anotacoes, c.dia, PaddedHora(c.hora), c.status)))
  {
    screen.OpenEdit(c);
    request := screen.UpdateSubmit(response);
    EncodeDecode(c.dia, c.hora);
  }
}
