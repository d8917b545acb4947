/** One task card (task/static/task/js/components/TaskCard.js): where it
    finds the anti-forgery token, what its toggle and delete handlers do with
    the answer to their request, and how it renders a time of day.

    A handler is a pure transition: from the card's state, the token it found
    and what its `fetch` produced, to the card's next state and the list of
    things it did, in order (requests sent, toasts shown, parent callbacks
    called). Toasts and the completion pulse are recorded as effects; their
    timers and DOM work are not modelled. */
module TaskCard {
  import opened Wrappers
  import opened Text
  import opened Wire
  import Cookies

  // ---------------------------------------------------------------------
  // getCSRFTokenSafe
  // ---------------------------------------------------------------------

  /** A JavaScript string-or-null value. */
  type Token = Option<string>

  /** `if (token)`: a token counts only when it is a non-empty string. */
  predicate Present(t: Token) {
    t.Some? && t.value != ""
  }

  /** Where the card may find a token.
      `accessor`: `None` when `window.getCSRFToken` is not a function,
      otherwise what calling it returned.
      `cookies`: `document.cookie`.
      `meta`: `None` when there is no `<meta name="csrf-token">`, otherwise
      its `content` attribute (itself `None` when the attribute is absent). */
  datatype TokenSources = TokenSources(accessor: Option<Token>, cookies: string, meta: Option<Token>)

  /** The token the card uses, from the first source that yields one, in a
      fixed order: a non-empty answer of the global accessor; else the raw
      text after `csrftoken=` in the first trimmed cookie that starts with it
      (even when that text is empty); else the meta tag's content (even when
      null or empty); else the empty string. */
  function LookupToken(src: TokenSources): (r: Token)
    ensures src.accessor.Some? && Present(src.accessor.value) ==> r == src.accessor.value
    ensures !(src.accessor.Some? && Present(src.accessor.value)) ==>
      match Cookies.CookieValue(src.cookies, Cookies.CsrfCookieName)
      case Some(v) => r == Some(v)
      case None => r == src.meta.GetOr(Some(""))
  {
    if src.accessor.Some? && Present(src.accessor.value) then src.accessor.value
    else match Cookies.CookieValue(src.cookies, Cookies.CsrfCookieName)
      case Some(v) => Some(v)
      case None =>
        match src.meta
        case Some(content) => content
        case None => Some("")
  }

  /** The lookup finds a usable token exactly when some source, taken in
      order, has one: the accessor, or (the accessor failing) a non-empty
      cookie value, or (no cookie at all) a non-empty meta content. A
      `csrftoken=` cookie with an empty value stops the search with no
      token. */
  lemma TokenPresentIff(src: TokenSources)
    ensures Present(LookupToken(src)) <==>
      || (src.accessor.Some? && Present(src.accessor.value))
      || (Cookies.CookieValue(src.cookies, Cookies.CsrfCookieName).Some?
          && Cookies.CookieValue(src.cookies, Cookies.CsrfCookieName).value != "")
      || (Cookies.CookieValue(src.cookies, Cookies.CsrfCookieName).None?
          && src.meta.Some? && Present(src.meta.value))
  {
  }

  /** With the accessor `csrf.js` installs, the card uses the decoded
      cookie value whenever decoding leaves something; when it leaves the
      empty string, the card's own scan takes over and uses the raw value;
      with no `csrftoken` cookie the meta tag decides. So when decoding
      leaves a value alone, both routes agree on the token. */
  lemma DefaultAccessorAgreesWithCookieScan(cookies: string, meta: Option<Token>, decode: string -> string)
    ensures var v := Cookies.CookieValue(cookies, Cookies.CsrfCookieName);
      var found := LookupToken(TokenSources(Some(Cookies.GetCSRFToken(cookies, decode)), cookies, meta));
      && (v.Some? && decode(v.value) != "" ==> found == Some(decode(v.value)))
      && (v.Some? && decode(v.value) == "" ==> found == v)
      && (v.Some? && decode(v.value) == v.value ==> found == v)
      && (v.None? ==> found == meta.GetOr(Some("")))
  {
    var v := Cookies.CookieValue(cookies, Cookies.CsrfCookieName);
    var accessor := Cookies.GetCSRFToken(cookies, decode);
    if cookies == "" {
      Cookies.NoCookiesNoValue(Cookies.CsrfCookieName);
      assert accessor.None?;
    } else if v.Some? {
      assert accessor == Some(decode(v.value));
    } else {
      assert accessor.None?;
    }
  }

  // ---------------------------------------------------------------------
  // Card state and effects
  // ---------------------------------------------------------------------

  datatype CardState = CardState(status: bool, isToggling: bool, isDeleting: bool)

  datatype ToastKind = SuccessToast | ErrorToast

  datatype Effect =
    | CompletionPulse
    | SendToggle(id: int)
    | SendDelete(id: int)
    | ShowToast(message: string, kind: ToastKind)
    | NotifyToggle(id: int, status: bool)
    | NotifyDelete(id: int)

  datatype Step = Step(card: CardState, effects: seq<Effect>)

  const ToggleNetworkError: string := "Network error"
  const ToggleFailed: string := "Failed to update task"
  const CompletedMessage: string := "Task completed"
  const PendingMessage: string := "Task marked as pending"
  const DeleteNetworkError: string := "Network error. Please try again."
  const DeleteFailedStatus: string := "Failed to delete task"
  const DeleteFailedBody: string := "Delete failed"
  const DeletedToast: string := "Task deleted successfully"

  /** How long a toast stays visible, in milliseconds. */
  function ToastDuration(kind: ToastKind): (ms: nat)
    ensures kind == SuccessToast ==> ms == 2000
    ensures kind == ErrorToast ==> ms == 4000
  {
    if kind == SuccessToast then 2000 else 4000
  }

  /** When a toast's element is removed: half a second after it has hidden
      itself, and errors stay up longer than successes. */
  function ToastRemoval(kind: ToastKind): (ms: nat)
    ensures ms == ToastDuration(kind) + 500
  {
    if kind == SuccessToast then 2500 else 4500
  }

  /** A card starts from the task's status, idle. */
  function InitialCard(t: TaskJson): (c: CardState)
    ensures c.status == t.status && !c.isToggling && !c.isDeleting
  {
    CardState(t.status, false, false)
  }

  /** The checkbox and the edit and delete buttons are disabled while either
      request is in flight. */
  predicate ControlsEnabled(c: CardState) {
    !c.isToggling && !c.isDeleting
  }

  /** The toasts among the effects, in order. */
  function Toasts(es: seq<Effect>): (ts: seq<Effect>)
    ensures forall k :: 0 <= k < |ts| ==> ts[k].ShowToast? && ts[k] in es
    ensures forall k :: 0 <= k < |es| && es[k].ShowToast? ==> es[k] in ts
  {
    if |es| == 0 then []
    else (if es[0].ShowToast? then [es[0]] else []) + Toasts(es[1..])
  }

  lemma {:induction false} ToastsOfConcat(a: seq<Effect>, b: seq<Effect>)
    ensures Toasts(a + b) == Toasts(a) + Toasts(b)
    decreases |a|
  {
    if |a| > 0 {
      var ab := a + b;
      assert ab[0] == a[0];
      assert ab[1..] == a[1..] + b;
      ToastsOfConcat(a[1..], b);
      var head := if a[0].ShowToast? then [a[0]] else [];
      assert Toasts(ab) == head + Toasts(a[1..] + b);
      assert Toasts(a) == head + Toasts(a[1..]);
    } else {
      assert a + b == b;
    }
  }

  /** The request got an answer that `response.ok` accepts and whose body
      parses as JSON with `success` true. */
  predicate Confirmed(o: Outcome) {
    && o.Responded?
    && IsOk(o.response.status)
    && IsJson(o.response.body)
    && SuccessField(o.response.body) == Some(true)
  }

  // ---------------------------------------------------------------------
  // handleToggle
  // ---------------------------------------------------------------------

  /** The toggle succeeds when a token was found and the server confirmed. */
  predicate ToggleSucceeds(token: Token, o: Outcome) {
    Present(token) && Confirmed(o)
  }

  /** The error toast of a failed toggle: the network message when no token
      was found, when `fetch` rejected or when the body is not JSON; the
      failure message when the answer is not 2xx or does not say `success`. */
  function ToggleErrorMessage(token: Token, o: Outcome): (m: string)
    ensures m == ToggleNetworkError <==>
      !Present(token) || o.Threw? || (IsOk(o.response.status) && !IsJson(o.response.body))
    ensures m == ToggleFailed <==>
      Present(token) && o.Responded? && (!IsOk(o.response.status) || IsJson(o.response.body))
  {
    if !Present(token) then ToggleNetworkError
    else match o
      case Threw => ToggleNetworkError
      case Responded(resp) =>
        if !IsOk(resp.status) then ToggleFailed
        else if !IsJson(resp.body) then ToggleNetworkError
        else ToggleFailed
  }

  /** What the toggle does after computing the status it asks for: the new
      status it keeps and the effects, request included. A missing token
      raises before any request and lands in the same handler as a failed
      `fetch`. */
  function ToggleResult(id: int, newStatus: bool, token: Token, o: Outcome, hasOnToggle: bool): (r: (bool, seq<Effect>))
    ensures r.0 == (if ToggleSucceeds(token, o) then newStatus else !newStatus)
    ensures SendToggle(id) in r.1 <==> Present(token)
    ensures forall e :: e in r.1 && e.NotifyToggle? ==> e == NotifyToggle(id, newStatus)
    ensures NotifyToggle(id, newStatus) in r.1 <==> ToggleSucceeds(token, o) && hasOnToggle
    ensures CompletionPulse !in r.1
    ensures |r.1| > 0 && r.1[|r.1| - 1].ShowToast?
    ensures forall k :: 0 <= k < |r.1| - 1 ==> !r.1[k].ShowToast?
    ensures ToggleSucceeds(token, o) ==>
      r.1[|r.1| - 1] == ShowToast(if newStatus then CompletedMessage else PendingMessage, SuccessToast)
    ensures !ToggleSucceeds(token, o) ==> r.1[|r.1| - 1] == ShowToast(ToggleErrorMessage(token, o), ErrorToast)
  {
    if !Present(token) then (!newStatus, [ShowToast(ToggleNetworkError, ErrorToast)])
    else
      var answer :=
        match o
        case Threw => (!newStatus, [ShowToast(ToggleNetworkError, ErrorToast)])
        case Responded(resp) =>
          if !IsOk(resp.status) then (!newStatus, [ShowToast(ToggleFailed, ErrorToast)])
          else if !IsJson(resp.body) then (!newStatus, [ShowToast(ToggleNetworkError, ErrorToast)])
          else if SuccessField(resp.body) == Some(true) then
            (newStatus,
             (if hasOnToggle then [NotifyToggle(id, newStatus)] else [])
             + [ShowToast(if newStatus then CompletedMessage else PendingMessage, SuccessToast)])
          else (!newStatus, [ShowToast(ToggleFailed, ErrorToast)]);
      (answer.0, [SendToggle(id)] + answer.1)
  }

  lemma ToggleResultToasts(id: int, newStatus: bool, token: Token, o: Outcome, hasOnToggle: bool)
    ensures var es := ToggleResult(id, newStatus, token, o, hasOnToggle).1;
      && |Toasts(es)| == 1
      && (ToggleSucceeds(token, o) ==>
            Toasts(es) == [ShowToast(if newStatus then CompletedMessage else PendingMessage, SuccessToast)])
      && (!ToggleSucceeds(token, o) ==> Toasts(es) == [ShowToast(ToggleErrorMessage(token, o), ErrorToast)])
  {
    ToastIsLast(ToggleResult(id, newStatus, token, o, hasOnToggle).1);
  }

  /** When only the last effect is a toast, it is the one toast shown. */
  lemma {:induction false} ToastIsLast(es: seq<Effect>)
    requires |es| > 0 && es[|es| - 1].ShowToast?
    requires forall k :: 0 <= k < |es| - 1 ==> !es[k].ShowToast?
    ensures Toasts(es) == [es[|es| - 1]]
  {
    if |es| > 1 {
      ToastIsLast(es[1..]);
    }
  }

  /** `handleToggle`, from the click to the settled answer. A click while a
      toggle is in flight does nothing at all. Otherwise the shown status
      becomes the flipped one only when the server confirms, and stays as it
      was on every other path; the busy flag always ends cleared; exactly one
      toast is shown, a success toast exactly on success; the request is sent
      exactly when a token was found; the parent hears of the new status
      exactly on success. */
  function HandleToggle(c: CardState, id: int, token: Token, o: Outcome, hasOnToggle: bool): (r: Step)
    ensures c.isToggling ==> r == Step(c, [])
    ensures !c.isToggling ==> !r.card.isToggling && r.card.isDeleting == c.isDeleting
    ensures !c.isToggling ==> (r.card.status != c.status <==> ToggleSucceeds(token, o))
    ensures SendToggle(id) in r.effects <==> !c.isToggling && Present(token)
    ensures forall e :: e in r.effects && e.NotifyToggle? ==> e == NotifyToggle(id, !c.status)
    ensures NotifyToggle(id, !c.status) in r.effects <==> !c.isToggling && ToggleSucceeds(token, o) && hasOnToggle
    ensures CompletionPulse in r.effects <==> !c.isToggling && !c.status
    ensures !c.isToggling ==> |Toasts(r.effects)| == 1
    ensures !c.isToggling && ToggleSucceeds(token, o) ==>
      Toasts(r.effects) == [ShowToast(if c.status then PendingMessage else CompletedMessage, SuccessToast)]
    ensures !c.isToggling && !ToggleSucceeds(token, o) ==>
      Toasts(r.effects) == [ShowToast(ToggleErrorMessage(token, o), ErrorToast)]
  {
    if c.isToggling then Step(c, [])
    else
      var newStatus := !c.status;
      var pulse := if newStatus then [CompletionPulse] else [];
      var (status, effects) := ToggleResult(id, newStatus, token, o, hasOnToggle);
      ToastsOfConcat(pulse, effects);
      ToggleResultToasts(id, newStatus, token, o, hasOnToggle);
      Step(CardState(status, false, c.isDeleting), pulse + effects)
  }

  /** The success phrase for the status a toggle reached. */
  function SuccessPhrase(reached: bool): (m: string)
    ensures m == CompletedMessage <==> reached
    ensures m == PendingMessage <==> !reached
  {
    assert CompletedMessage[5] != PendingMessage[5];
    if reached then CompletedMessage else PendingMessage
  }

  /** A confirmed toggle from an idle card flips the status, leaves the card
      idle, and names the status it reached in its toast. */
  lemma ConfirmedToggle(c: CardState, id: int, token: Token, o: Outcome, hasOnToggle: bool)
    requires !c.isToggling && ToggleSucceeds(token, o)
    ensures HandleToggle(c, id, token, o, hasOnToggle).card == c.(status := !c.status)
    ensures Toasts(HandleToggle(c, id, token, o, hasOnToggle).effects)[0].message == SuccessPhrase(!c.status)
  {
  }

  /** Two confirmed toggles in a row bring the card back to its status, and
      their success toasts use the two opposite phrases. */
  lemma ToggleTwiceOppositePhrases(c: CardState, id: int, token: Token, o1: Outcome, o2: Outcome, hasOnToggle: bool)
    requires !c.isToggling && ToggleSucceeds(token, o1) && ToggleSucceeds(token, o2)
    ensures var first := HandleToggle(c, id, token, o1, hasOnToggle);
      var second := HandleToggle(first.card, id, token, o2, hasOnToggle);
      var m1 := Toasts(first.effects)[0].message;
      var m2 := Toasts(second.effects)[0].message;
      && second.card.status == c.status
      && m1 != m2
      && {m1, m2} == {CompletedMessage, PendingMessage}
  {
    var first := HandleToggle(c, id, token, o1, hasOnToggle);
    ConfirmedToggle(c, id, token, o1, hasOnToggle);
    ConfirmedToggle(first.card, id, token, o2, hasOnToggle);
    OppositePhrases(c.status);
  }

  lemma OppositePhrases(status: bool)
    ensures SuccessPhrase(!status) != SuccessPhrase(status)
    ensures {SuccessPhrase(!status), SuccessPhrase(status)} == {CompletedMessage, PendingMessage}
  {
  }

  // ---------------------------------------------------------------------
  // handleDelete
  // ---------------------------------------------------------------------

  /** The delete succeeds when a token was found, the server confirmed, and
      the card has an `onDelete` callback to call. */
  predicate DeleteSucceeds(token: Token, o: Outcome, hasOnDelete: bool) {
    Present(token) && Confirmed(o) && hasOnDelete
  }

  /** The error toast of a failed delete: the network message when no token
      was found (no separate authentication message exists), when `fetch`
      rejected or when the body is not JSON; the status message when the
      answer is not 2xx; otherwise the body's `error`, or a fixed message
      when it has none. */
  function DeleteErrorMessage(token: Token, o: Outcome): (m: string)
    ensures m == DeleteNetworkError <==>
      !Present(token) || o.Threw? || (IsOk(o.response.status) && !IsJson(o.response.body))
    ensures Present(token) && o.Responded? && !IsOk(o.response.status) ==> m == DeleteFailedStatus
    ensures Present(token) && o.Responded? && IsOk(o.response.status) && IsJson(o.response.body) ==>
      m == ErrorField(o.response.body).GetOr(DeleteFailedBody)
    ensures m != DeletedToast
  {
    if !Present(token) then DeleteNetworkError
    else match o
      case Threw => DeleteNetworkError
      case Responded(resp) =>
        if !IsOk(resp.status) then DeleteFailedStatus
        else if !IsJson(resp.body) then DeleteNetworkError
        else if Present(ErrorField(resp.body)) then ErrorField(resp.body).value
        else DeleteFailedBody
  }

  /** Whether the card is still marked as being removed afterwards, and the
      effects, request included. */
  function DeleteResult(id: int, token: Token, o: Outcome, hasOnDelete: bool): (r: (bool, seq<Effect>))
    ensures r.0 <==> DeleteSucceeds(token, o, hasOnDelete)
    ensures SendDelete(id) in r.1 <==> Present(token)
    ensures forall e :: e in r.1 && e.NotifyDelete? ==> e == NotifyDelete(id)
    ensures NotifyDelete(id) in r.1 <==> DeleteSucceeds(token, o, hasOnDelete)
    ensures forall e :: e in r.1 ==> !e.NotifyToggle? && !e.SendToggle? && e != CompletionPulse
  {
    var fail := (false, [ShowToast(DeleteErrorMessage(token, o), ErrorToast)]);
    if !Present(token) then fail
    else if DeleteSucceeds(token, o, hasOnDelete) then
      (true, [SendDelete(id), ShowToast(DeletedToast, SuccessToast), NotifyDelete(id)])
    else (false, [SendDelete(id), ShowToast(DeleteErrorMessage(token, o), ErrorToast)])
  }

  /** The delete shows exactly one toast: the success toast on success, the
      path's error toast otherwise. */
  lemma DeleteResultToasts(id: int, token: Token, o: Outcome, hasOnDelete: bool)
    ensures var es := DeleteResult(id, token, o, hasOnDelete).1;
      && (DeleteSucceeds(token, o, hasOnDelete) ==> Toasts(es) == [ShowToast(DeletedToast, SuccessToast)])
      && (!DeleteSucceeds(token, o, hasOnDelete) ==> Toasts(es) == [ShowToast(DeleteErrorMessage(token, o), ErrorToast)])
  {
    var es := DeleteResult(id, token, o, hasOnDelete).1;
    if DeleteSucceeds(token, o, hasOnDelete) {
      assert es[2..] == [NotifyDelete(id)] && es[2..][1..] == [];
      assert Toasts(es[2..]) == [];
      assert es[1..][1..] == es[2..];
    } else {
      ToastIsLast(es);
    }
  }

  /** `handleDelete`. The card marks itself as being removed, and stays so
      only when the delete succeeded and the parent was told to drop the
      task; every other path clears the mark and shows one error toast. The
      status and the toggle flag are not touched. */
  function HandleDelete(c: CardState, id: int, token: Token, o: Outcome, hasOnDelete: bool): (r: Step)
    ensures r.card.status == c.status && r.card.isToggling == c.isToggling
    ensures r.card.isDeleting <==> DeleteSucceeds(token, o, hasOnDelete)
    ensures SendDelete(id) in r.effects <==> Present(token)
    ensures NotifyDelete(id) in r.effects <==> DeleteSucceeds(token, o, hasOnDelete)
    ensures forall e :: e in r.effects && e.NotifyDelete? ==> e == NotifyDelete(id)
    ensures DeleteSucceeds(token, o, hasOnDelete) ==> Toasts(r.effects) == [ShowToast(DeletedToast, SuccessToast)]
    ensures !DeleteSucceeds(token, o, hasOnDelete) ==>
      Toasts(r.effects) == [ShowToast(DeleteErrorMessage(token, o), ErrorToast)]
  {
    var (deleting, effects) := DeleteResult(id, token, o, hasOnDelete);
    DeleteResultToasts(id, token, o, hasOnDelete);
    Step(c.(isDeleting := deleting), effects)
  }

  /** The card's controls, disabled while a request is in flight, are usable
      again once a toggle settles; after a delete they are usable again
      exactly when it failed, since on success the card stays marked as
      removed. */
  lemma ControlsSettle(c: CardState, id: int, token: Token, o: Outcome, hasOnToggle: bool, hasOnDelete: bool)
    requires ControlsEnabled(c)
    ensures ControlsEnabled(HandleToggle(c, id, token, o, hasOnToggle).card)
    ensures ControlsEnabled(HandleDelete(c, id, token, o, hasOnDelete).card) <==> !DeleteSucceeds(token, o, hasOnDelete)
  {
  }

  /** A missing token is reported exactly as a request that failed on the
      network: same card state, same toast, only without the request. */
  lemma MissingTokenLooksLikeNetworkFailure(c: CardState, id: int, missing: Token, found: Token, o: Outcome, hasOnDelete: bool)
    requires !Present(missing) && Present(found)
    ensures HandleDelete(c, id, missing, o, hasOnDelete).card == HandleDelete(c, id, found, Threw, hasOnDelete).card
    ensures Toasts(HandleDelete(c, id, missing, o, hasOnDelete).effects)
         == Toasts(HandleDelete(c, id, found, Threw, hasOnDelete).effects)
         == [ShowToast(DeleteNetworkError, ErrorToast)]
    ensures SendDelete(id) !in HandleDelete(c, id, missing, o, hasOnDelete).effects
  {
  }

  /** The same holds of the toggle: no token ends exactly like a rejected
      `fetch`, status unchanged and the "Network error" toast. */
  lemma MissingTokenOnToggleLooksLikeNetworkFailure(c: CardState, id: int, missing: Token, found: Token, o: Outcome, hasOnToggle: bool)
    requires !c.isToggling
    requires !Present(missing) && Present(found)
    ensures HandleToggle(c, id, missing, o, hasOnToggle).card == HandleToggle(c, id, found, Threw, hasOnToggle).card
    ensures HandleToggle(c, id, missing, o, hasOnToggle).card.status == c.status
    ensures Toasts(HandleToggle(c, id, missing, o, hasOnToggle).effects)
         == Toasts(HandleToggle(c, id, found, Threw, hasOnToggle).effects)
         == [ShowToast(ToggleNetworkError, ErrorToast)]
  {
    var pulse := if !c.status then [CompletionPulse] else [];
    ToastsOfConcat(pulse, [ShowToast(ToggleNetworkError, ErrorToast)]);
    ToastsOfConcat(pulse, [SendToggle(id), ShowToast(ToggleNetworkError, ErrorToast)]);
    ToastsOfConcat([SendToggle(id)], [ShowToast(ToggleNetworkError, ErrorToast)]);
    assert HandleToggle(c, id, found, Threw, hasOnToggle).effects
        == pulse + ([SendToggle(id)] + [ShowToast(ToggleNetworkError, ErrorToast)]);
  }

  /** The delete's error toast is one of the three fixed messages or the
      `error` text the server put in its body; nothing names a missing
      token. A 2xx answer that is not JSON reads as a network failure; a 2xx
      JSON answer without `success` shows its `error`, else "Delete failed". */
  lemma DeleteErrorMessageSources(token: Token, o: Outcome)
    ensures !Present(token) || o.Threw? ==> DeleteErrorMessage(token, o) == DeleteNetworkError
    ensures Present(token) && o.Responded? && !IsOk(o.response.status) ==>
              DeleteErrorMessage(token, o) == DeleteFailedStatus
    ensures Present(token) && o.Responded? && IsOk(o.response.status) && !IsJson(o.response.body) ==>
              DeleteErrorMessage(token, o) == DeleteNetworkError
    ensures Present(token) && o.Responded? && IsOk(o.response.status) && IsJson(o.response.body) ==>
              DeleteErrorMessage(token, o)
              == (if Present(ErrorField(o.response.body)) then ErrorField(o.response.body).value else DeleteFailedBody)
    ensures DeleteErrorMessage(token, o) in {DeleteNetworkError, DeleteFailedStatus, DeleteFailedBody, NotFoundError, InvalidMethodError}
  {
  }

  /** The toggle's error toast by path: "Network error" for a missing token,
      a rejected `fetch` or a 2xx answer that is not JSON; "Failed to update
      task" for an answer that is not 2xx or a JSON answer without `success`
      true. */
  lemma ToggleErrorMessageSources(token: Token, o: Outcome)
    ensures !Present(token) || o.Threw? ==> ToggleErrorMessage(token, o) == ToggleNetworkError
    ensures Present(token) && o.Responded? && !IsOk(o.response.status) ==>
              ToggleErrorMessage(token, o) == ToggleFailed
    ensures Present(token) && o.Responded? && IsOk(o.response.status) && !IsJson(o.response.body) ==>
              ToggleErrorMessage(token, o) == ToggleNetworkError
    ensures Present(token) && o.Responded? && IsOk(o.response.status) && IsJson(o.response.body)
              && SuccessField(o.response.body) != Some(true) ==>
              ToggleErrorMessage(token, o) == ToggleFailed
  {
  }

  // ---------------------------------------------------------------------
  // formatTime
  // ---------------------------------------------------------------------

  /** JavaScript's `hour % 12` on an integral number: the remainder of the
      division truncated toward zero, so it takes the sign of the dividend. */
  function JsRemainder12(a: int): (r: int)
    ensures -12 < r < 12
    ensures (a - r) % 12 == 0
    ensures r == 0 || (r > 0 <==> a > 0)
  {
    if a >= 0 then a % 12 else -((-a) % 12)
  }

  /** `hour % 12 || 12`: NaN and a zero remainder both give 12. */
  function DisplayHour(hour: Option<int>): (h: int)
    ensures hour.None? ==> h == 12
    ensures hour.Some? && hour.value >= 0 ==> 1 <= h <= 12 && h % 12 == hour.value % 12
  {
    match hour
    case None => 12
    case Some(v) => var m := JsRemainder12(v); if m == 0 then 12 else m
  }

  /** `hour >= 12 ? 'PM' : 'AM'`, where NaN compares false. */
  function Meridiem(hour: Option<int>): (m: string)
    ensures m == "PM" || m == "AM"
    ensures m == "PM" <==> hour.Some? && hour.value >= 12
  {
    assert "PM"[0] != "AM"[0];
    if hour.Some? && hour.value >= 12 then "PM" else "AM"
  }

  /** On a 24-hour value the 12-hour rendering loses nothing: the displayed
      hour and the suffix give the hour back. */
  lemma TwelveHourClockRoundTrip(v: int)
    requires 0 <= v < 24
    ensures v == DisplayHour(Some(v)) % 12 + (if Meridiem(Some(v)) == "PM" then 12 else 0)
  {
  }

  /** `formatTime(timeString)`: null for a missing or empty string; otherwise
      the text before the first `:` read as an hour, the text between the
      first and second `:` copied as the minutes (`undefined` when there is
      no `:`), on a 12-hour clock. */
  function FormatTime(timeString: Option<string>): (r: Option<string>)
    ensures r.None? <==> timeString.None? || timeString.value == ""
  {
    match timeString
    case None => None
    case Some(s) =>
      if s == "" then None
      else
        var parts := Split(s, ':');
        var minutes := if |parts| > 1 then parts[1] else "undefined";
        var hour := ParseInt(parts[0]);
        Some(IntToString(DisplayHour(hour)) + ":" + minutes + " " + Meridiem(hour))
  }

  /** Two decimal digits, with a leading zero below ten. */
  function TwoDigits(h: nat): (d: string)
    requires h < 100
    ensures |d| == 2 && AllDigits(d, 10) && DigitsValue(d, 10) == h
  {
    var d := [DigitChar(h / 10), DigitChar(h % 10)];
    assert DigitValue(d[0], 10) == Some(h / 10);
    assert DigitValue(d[1], 10) == Some(h % 10);
    assert d[..1] == [DigitChar(h / 10)];
    assert d[..1][..0] == [];
    assert DigitsValue(d[..1], 10) == h / 10;
    assert DigitsValue(d, 10) == (h / 10) * 10 + h % 10;
    d
  }

  lemma ParseTwoDigits(h: nat)
    requires h < 100
    ensures ParseInt(TwoDigits(h)) == Some(h)
  {
    var d := TwoDigits(h);
    DigitsAreNotWhitespace(d);
    MagnitudeOfDigits(d);
  }

  lemma FirstTwoPieces(hh: string, m: string, tail: string)
    requires ':' !in hh && ':' !in m
    requires tail == [] || tail[0] == ':'
    ensures var parts := Split(hh + ":" + m + tail, ':');
            |parts| > 1 && parts[0] == hh && parts[1] == m
  {
    SplitPieceThenRest(hh, m + tail, ':');
    assert hh + ":" + m + tail == hh + [':'] + (m + tail);
    if tail == [] {
      assert m + tail == m;
      SplitSinglePiece(m, ':');
    } else {
      assert m + tail == m + [':'] + tail[1..];
      SplitPieceThenRest(m, tail[1..], ':');
    }
  }

  /** A time of day written `HH:MM` (or `HH:MM:SS`, as the server writes a
      time column) with `HH` from 00 to 23 comes out as the hour on a 12-hour
      clock (12 for 00 and 12), the minutes exactly as written, and PM
      exactly from 12 on. */
  lemma FormatClockTime(h: nat, m: string, tail: string)
    requires h <= 23
    requires ':' !in m
    requires tail == [] || tail[0] == ':'
    ensures FormatTime(Some(TwoDigits(h) + ":" + m + tail))
         == Some(IntToString(if h % 12 == 0 then 12 else h % 12) + ":" + m + " " + (if h >= 12 then "PM" else "AM"))
  {
    var d := TwoDigits(h);
    var s := d + ":" + m + tail;
    assert ':' !in d by { assert DigitValue(d[0], 10).Some? && DigitValue(d[1], 10).Some?; }
    FirstTwoPieces(d, m, tail);
    ParseTwoDigits(h);
    assert s != "" by { assert |s| >= 2; }
    FormatTimeFromParts(s, d, m);
    assert DisplayHour(Some(h)) == (if h % 12 == 0 then 12 else h % 12);
  }

  /** `formatTime` on a non-empty string with an hour and a minutes field. */
  lemma FormatTimeFromParts(s: string, hh: string, mm: string)
    requires s != ""
    requires |Split(s, ':')| > 1 && Split(s, ':')[0] == hh && Split(s, ':')[1] == mm
    ensures FormatTime(Some(s)) == Some(IntToString(DisplayHour(ParseInt(hh))) + ":" + mm + " " + Meridiem(ParseInt(hh)))
  {
  }
}
