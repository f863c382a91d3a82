/** The public verification page reached through a notice's QR code: it
    loads the notice by the token in the route, forces the acceptance dialog
    open until the notice is accepted, records the acceptance, and shows the
    document only once the notice is accepted. */
module VerifyNotification {
  import opened Text
  import opened Notices
  import opened NoticeStore
  import opened AcceptancePayload

  /** The component state the page renders from. */
  datatype PageState = PageState(
    notification: Option<Notice>,
    isLoading: bool,
    isAccepting: bool,
    showAcceptDialog: bool,
    notFound: bool)

  const InitialState := PageState(None, true, false, false, false)

  /** The state after `loadNotification` with the lookup result r: a found
      row is shown and opens the dialog when it is not accepted (the dialog is
      never closed here); no row or an error marks the notice not found; the
      loading flag ends false on every path. */
  function AfterLoad(s: PageState, r: LookupResult): (t: PageState)
    ensures !t.isLoading && t.isAccepting == s.isAccepting
    ensures r.Row? ==> t.notification == Some(r.row) && t.notFound == s.notFound
    ensures r.Row? ==> (t.showAcceptDialog <==> s.showAcceptDialog || !IsAccepted(r.row))
    ensures !r.Row? ==> t.notFound && t.notification == s.notification && t.showAcceptDialog == s.showAcceptDialog
  {
    match r
    case Row(n) =>
      s.(notification := Some(n),
         showAcceptDialog := if !IsAccepted(n) then true else s.showAcceptDialog,
         isLoading := false)
    case _ => s.(notFound := true, isLoading := false)
  }

  /** From the initial state, one load opens the dialog exactly when the
      loaded notice is not accepted. */
  lemma FirstLoadOpensDialog(r: LookupResult)
    requires r.Row?
    ensures AfterLoad(InitialState, r).showAcceptDialog <==> !IsAccepted(r.row)
  {
  }

  /** Every state the page can reach shows a spinner, the not-found card or a
      loaded notice; none leaves it rendering a missing notice. */
  predicate Renderable(s: PageState) { s.isLoading || s.notFound || s.notification.Some? }

  lemma LoadKeepsRenderable(s: PageState, r: LookupResult)
    ensures Renderable(AfterLoad(s, r))
  {
  }

  /** What the page renders. */
  datatype View =
    | LoadingView
    | NotFoundView
    | NoticeView(
        notice: Notice,
        dialogOpen: bool,
        pdfButton: bool,
        blockedNotice: bool,
        acceptanceCard: bool,
        document: bool)
    | RenderFailure   // a notice field read on a null notice throws

  /** The render gate: loading first, then not found, then the notice, whose
      PDF button, acceptance card and document appear exactly when it is
      accepted and whose "blocked" card appears exactly when it is not. */
  function ViewOf(s: PageState): (v: View)
    ensures s.isLoading ==> v == LoadingView
    ensures !s.isLoading && s.notFound ==> v == NotFoundView
    ensures !s.isLoading && !s.notFound && s.notification.Some? ==> v.NoticeView?
    ensures v.NoticeView? ==> Some(v.notice) == s.notification && v.dialogOpen == s.showAcceptDialog
    ensures v.NoticeView? ==> (v.pdfButton <==> IsAccepted(v.notice)) && v.acceptanceCard == v.pdfButton
                              && v.document == v.pdfButton && v.blockedNotice == !v.pdfButton
    ensures v == RenderFailure <==> !Renderable(s)
  {
    if s.isLoading then LoadingView
    else if s.notFound then NotFoundView
    else match s.notification
      case None => RenderFailure
      case Some(n) =>
        var accepted := IsAccepted(n);
        NoticeView(n, s.showAcceptDialog, accepted, !accepted, accepted, accepted)
  }

  /** The page for the route `/verify/:token`. */
  class VerifyPage {
    const routeToken: string
    var notification: Option<Notice>
    var isLoading: bool
    var isAccepting: bool
    var showAcceptDialog: bool
    var notFound: bool

    function State(): PageState
      reads this
    {
      PageState(notification, isLoading, isAccepting, showAcceptDialog, notFound)
    }

    constructor (token: string)
      ensures routeToken == token && State() == InitialState
    {
      routeToken := token;
      notification := None;
      isLoading := true;
      isAccepting := false;
      showAcceptDialog := false;
      notFound := false;
    }

    /** The key the page looks its notice up by. */
    function LookupToken(): string
      reads this
    {
      ToUpper(routeToken)
    }

    /** `loadNotification` against the table's rows; `queryFails` says whether
        the query failed on its way. */
    method LoadNotification(table: NoticeTable, queryFails: bool)
      modifies this
      ensures State() == AfterLoad(old(State()), MaybeSingle(table.rows, TokenColumn, LookupToken(), queryFails))
    {
      var r := MaybeSingle(table.rows, TokenColumn, ToUpper(routeToken), queryFails);
      match r {
        case Row(data) =>
          notification := Some(data);
          if !IsAccepted(data) {
            showAcceptDialog := true;
          }
        case _ =>
          notFound := true;
      }
      isLoading := false;
    }

    /** The mount effect: the page loads only when the route carries a token,
        and otherwise stays on the spinner. */
    method Mount(table: NoticeTable, queryFails: bool)
      modifies this
      ensures routeToken == "" ==> State() == old(State())
      ensures routeToken != "" ==>
                State() == AfterLoad(old(State()), MaybeSingle(table.rows, TokenColumn, LookupToken(), queryFails))
    {
      if routeToken != "" {
        LoadNotification(table, queryFails);
      }
    }

    /** `handleAccept`. `digest` stands for SHA-256 in hex, `hashClock` and
        `writeClock` for the two separate clock readings (the one hashed and
        the one stored), `ipReply` for the address service's answer (None when
        it fails), `updateFails` and `reloadFails` for the store's answers.
        On any failure only the accepting flag changes and no row changes, so
        the dialog stays open; on success exactly the acceptance columns of the
        row with this id are written, the dialog closes and the notice is
        loaded again. */
    method HandleAccept(table: NoticeTable, digest: string -> string, hashClock: string,
                        ipReply: Option<string>, writeClock: string, updateFails: bool, reloadFails: bool)
      returns (accepted: bool)
      modifies this, table
      ensures !isAccepting
      ensures accepted <==> old(notification).Some? && ipReply.Some? && !updateFails
      ensures !accepted ==> table.rows == old(table.rows) && State() == old(State()).(isAccepting := false)
      ensures accepted ==>
                var n := old(notification).value;
                var patch := AcceptancePatch(writeClock, digest(Payload(n.token, hashClock, n.id)), ipReply.value);
                table.rows == ApplyAcceptance(old(table.rows), n.id, patch)
                && State() == AfterLoad(old(State()).(showAcceptDialog := false, isAccepting := false),
                                        MaybeSingle(table.rows, TokenColumn, LookupToken(), reloadFails))
    {
      isAccepting := true;
      accepted := false;
      if notification.Some? && ipReply.Some? {
        var n := notification.value;
        var hash := digest(Payload(n.token, hashClock, n.id));
        var ip := ipReply.value;
        var ok := table.UpdateAcceptance(n.id, AcceptancePatch(writeClock, hash, ip), updateFails);
        if ok {
          showAcceptDialog := false;
          LoadNotification(table, reloadFails);
          accepted := true;
        }
      }
      isAccepting := false;
    }
  }

  /** Accepting the notice the page shows and loading it again shows it
      accepted, with the stored time, the hash of its payload and the
      address, the dialog closed. */
  lemma AcceptThenReloadShowsAccepted(s: PageState, rows: seq<Notice>, routeToken: string, n: Notice, p: AcceptancePatch)
    requires Matching(rows, TokenColumn, ToUpper(routeToken)) == [n]
    requires s.notification == Some(n)
    ensures var after := ApplyAcceptance(rows, n.id, p);
            var t := AfterLoad(s.(showAcceptDialog := false, isAccepting := false),
                               MaybeSingle(after, TokenColumn, ToUpper(routeToken), false));
            t.notification == Some(Accept(n, p)) && !t.showAcceptDialog && !t.isLoading
            && t.notification.value.acceptanceHash == Some(p.hash)
  {
    AcceptanceKeepsTokenLookup(rows, n.id, p, ToUpper(routeToken));
  }
}
