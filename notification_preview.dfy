/** The notice preview inside the application: it loads a notice by id,
    offers the PDF download always and the accept button while the notice is
    not accepted, and tells its parent after an acceptance. */
module NotificationPreview {
  import opened Notices
  import opened NoticeStore
  import opened AcceptancePayload

  /** What the panel renders. */
  datatype View =
    | LoadingView
    | NotFoundView
    | NoticeView(notice: Notice, pdfButton: bool, acceptButton: bool, acceptButtonEnabled: bool, acceptanceCard: bool)

  /** The render gate: spinner while loading, the not-found line without a
      notice, otherwise the PDF button always, the accept button exactly
      while the notice is not accepted (disabled while accepting) and the
      acceptance card exactly when it is accepted. */
  function ViewOf(notification: Option<Notice>, isLoading: bool, isAccepting: bool): (v: View)
    ensures isLoading ==> v == LoadingView
    ensures !isLoading && notification.None? ==> v == NotFoundView
    ensures !isLoading && notification.Some? ==> v.NoticeView?
    ensures v.NoticeView? ==> Some(v.notice) == notification && v.pdfButton
    ensures v.NoticeView? ==> (v.acceptButton <==> !IsAccepted(v.notice)) && v.acceptanceCard == !v.acceptButton
    ensures v.NoticeView? ==> (v.acceptButtonEnabled <==> !isAccepting)
  {
    if isLoading then LoadingView
    else match notification
      case None => NotFoundView
      case Some(n) => NoticeView(n, true, !IsAccepted(n), !isAccepting, IsAccepted(n))
  }

  class PreviewPanel {
    const notificationId: string
    var notification: Option<Notice>
    var isLoading: bool
    var isAccepting: bool
    /** How many times the parent's `onAccept` callback has run. */
    var acceptCallbacks: nat

    constructor (id: string)
      ensures notificationId == id && notification == None && isLoading && !isAccepting && acceptCallbacks == 0
    {
      notificationId := id;
      notification := None;
      isLoading := true;
      isAccepting := false;
      acceptCallbacks := 0;
    }

    function View(): View
      reads this
    {
      ViewOf(notification, isLoading, isAccepting)
    }

    /** `loadNotification`: the one row with the panel's id replaces the
        notice; any error (none or several rows, a failed query) leaves the
        notice as it was. Loading ends on every path. */
    method LoadNotification(table: NoticeTable, queryFails: bool)
      modifies this
      ensures !isLoading && isAccepting == old(isAccepting) && acceptCallbacks == old(acceptCallbacks)
      ensures var r := Single(table.rows, IdColumn, notificationId, queryFails);
              (r.Row? ==> notification == Some(r.row)) && (!r.Row? ==> notification == old(notification))
    {
      var r := Single(table.rows, IdColumn, notificationId, queryFails);
      if r.Row? {
        notification := Some(r.row);
      }
      isLoading := false;
    }

    /** `handleAccept`, with the same inputs as on the verification page. The
        hash covers the loaded notice's token and id, while the update is
        keyed by the panel's id. The parent's callback runs once after every
        successful update, after the reload, whether or not the reload
        succeeded (the reload reports its own errors and does not rethrow).
        On any failure no row changes and the callback does not run. */
    method HandleAccept(table: NoticeTable, digest: string -> string, hashClock: string,
                        ipReply: Option<string>, writeClock: string, updateFails: bool, reloadFails: bool)
      returns (accepted: bool)
      modifies this, table
      ensures !isAccepting
      ensures accepted <==> old(notification).Some? && ipReply.Some? && !updateFails
      ensures acceptCallbacks == old(acceptCallbacks) + (if accepted then 1 else 0)
      ensures !accepted ==> table.rows == old(table.rows) && notification == old(notification) && isLoading == old(isLoading)
      ensures accepted ==>
                var n := old(notification).value;
                var patch := AcceptancePatch(writeClock, digest(Payload(n.token, hashClock, n.id)), ipReply.value);
                var r := Single(table.rows, IdColumn, notificationId, reloadFails);
                table.rows == ApplyAcceptance(old(table.rows), notificationId, patch)
                && !isLoading
                && (r.Row? ==> notification == Some(r.row)) && (!r.Row? ==> notification == old(notification))
    {
      isAccepting := true;
      accepted := false;
      if notification.Some? && ipReply.Some? {
        var n := notification.value;
        var hash := digest(Payload(n.token, hashClock, n.id));
        var ok := table.UpdateAcceptance(notificationId, AcceptancePatch(writeClock, hash, ipReply.value), updateFails);
        if ok {
          LoadNotification(table, reloadFails);
          acceptCallbacks := acceptCallbacks + 1;
          accepted := true;
        }
      }
      isAccepting := false;
    }
  }

  /** After a successful update and reload of a notice whose id is unique, the
      panel shows it accepted: the accept button is gone and the acceptance
      card is shown. */
  lemma AcceptedPanelHidesButton(rows: seq<Notice>, id: string, p: AcceptancePatch)
    requires |Matching(rows, IdColumn, id)| == 1
    ensures var after := ApplyAcceptance(rows, id, p);
            var r := Single(after, IdColumn, id, false);
            r.Row? && IsAccepted(r.row)
            && var v := ViewOf(Some(r.row), false, false);
               v.NoticeView? && !v.acceptButton && v.acceptanceCard
  {
    AcceptanceKeepsIdLookup(rows, id, p);
  }

  /** The update keeps ids, so the lookup by the updated id still finds one
      row, now accepted. */
  lemma {:induction false} AcceptanceKeepsIdLookup(rows: seq<Notice>, id: string, p: AcceptancePatch)
    ensures |Matching(ApplyAcceptance(rows, id, p), IdColumn, id)| == |Matching(rows, IdColumn, id)|
    ensures forall n :: n in Matching(ApplyAcceptance(rows, id, p), IdColumn, id) ==> IsAccepted(n)
  {
    if rows != [] {
      var after := ApplyAcceptance(rows, id, p);
      assert after[1..] == ApplyAcceptance(rows[1..], id, p);
      AcceptanceKeepsIdLookup(rows[1..], id, p);
      var f := (n: Notice) => ColumnValue(n, IdColumn) == Some(id);
      assert Matching(rows, IdColumn, id) == (if f(rows[0]) then [rows[0]] else []) + Matching(rows[1..], IdColumn, id);
      assert Matching(after, IdColumn, id) == (if f(after[0]) then [after[0]] else []) + Matching(after[1..], IdColumn, id);
    }
  }
}
