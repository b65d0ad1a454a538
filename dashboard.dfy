/**
 * The dashboard page: an effect keyed on the session flag that either clears
 * the list or fetches the transaction history, and `renderContent`, which picks
 * what to show. The fetch reply is an input value.
 */
module Dashboard {
  import opened Wrappers
  import opened TransactionTable
  import AuthContext

  const FetchFailedError := "Failed to fetch transaction data."
  const ServiceUnreachableError := "Could not connect to the transaction history service."

  /**
   * How `fetch('/api/transaction-history')` settles: a response whose `ok` is
   * false, a parsed body, or an exception (transport failure or a body that is
   * not JSON).
   */
  datatype HistoryReply =
    | NotOk(status: int)
    | Body(success: bool, transactions: seq<Transaction>)
    | Exception

  /** What `renderContent` shows. */
  datatype View = AccessDenied | Loading | ErrorBox(message: string) | History(table: TableView)

  /** `if (error)` on a `string | null`: null and the empty string are falsy. */
  predicate IsSet(error: Option<string>)
  {
    error.Some? && error.value != ""
  }

  /**
   * `renderContent`: access denied when logged out, whatever else holds;
   * otherwise the spinner while loading; otherwise the error; otherwise the
   * table of the current list.
   */
  function RenderContent(isLoggedIn: bool, loading: bool, error: Option<string>, transactions: seq<Transaction>): (view: View)
    ensures view == AccessDenied <==> !isLoggedIn
    ensures view == Loading <==> isLoggedIn && loading
    ensures view.ErrorBox? <==> isLoggedIn && !loading && IsSet(error)
    ensures view.ErrorBox? ==> view.message == error.value
    ensures view.History? <==> isLoggedIn && !loading && !IsSet(error)
    ensures view.History? ==> view.table == RenderTable(transactions)
  {
    if !isLoggedIn then AccessDenied
    else if loading then Loading
    else if IsSet(error) then ErrorBox(error.value)
    else History(RenderTable(transactions))
  }

  /** No transaction row is ever shown while logged out, while loading or while an error is set. */
  lemma RowsOnlyWhenLoggedInWithoutError(isLoggedIn: bool, loading: bool, error: Option<string>, transactions: seq<Transaction>)
    requires RenderContent(isLoggedIn, loading, error, transactions).History?
    ensures isLoggedIn && !loading && !IsSet(error)
  {
  }

  /** `DashboardPage`: the list, the loading flag and the error message it keeps in state. */
  class DashboardPage {
    const session: AuthContext.AuthProvider
    var transactions: seq<Transaction>
    var loading: bool
    var error: Option<string>
    /** Fetches started and not yet settled; nothing cancels them. */
    ghost var pendingFetches: nat

    constructor (session: AuthContext.AuthProvider)
      ensures this.session == session
      ensures transactions == [] && !loading && error == None && pendingFetches == 0
    {
      this.session := session;
      transactions := [];
      loading := false;
      error := None;
      pendingFetches := 0;
    }

    /**
     * The effect that runs whenever `isLoggedIn` changes: when logged in it
     * starts a fetch (loading on, error cleared, list kept until the reply);
     * when logged out it issues nothing and clears the list, loading and error.
     */
    method SessionEffect() returns (fetchIssued: bool)
      modifies this
      ensures fetchIssued == session.isLoggedIn
      ensures fetchIssued ==> loading && error == None && transactions == old(transactions)
      ensures fetchIssued ==> pendingFetches == old(pendingFetches) + 1
      ensures !fetchIssued ==> transactions == [] && !loading && error == None
      ensures !fetchIssued ==> pendingFetches == old(pendingFetches)
    {
      if session.isLoggedIn {
        fetchIssued := true;
        loading := true;
        error := None;
        pendingFetches := pendingFetches + 1;
      } else {
        fetchIssued := false;
        transactions := [];
        loading := false;
        error := None;
      }
    }

    /**
     * The rest of `fetchTransactions` once the reply arrives. A non-ok status is
     * thrown and caught with the exception; a body without success sets its own
     * error; only a successful body replaces the list. Loading ends in every
     * case. The reply is applied whatever the session is by then.
     */
    method FetchSettled(reply: HistoryReply)
      requires pendingFetches > 0
      modifies this
      ensures !loading && pendingFetches == old(pendingFetches) - 1
      ensures reply.Body? && reply.success ==> transactions == reply.transactions && error == old(error)
      ensures reply.Body? && !reply.success ==> transactions == old(transactions) && error == Some(FetchFailedError)
      ensures !reply.Body? ==> transactions == old(transactions) && error == Some(ServiceUnreachableError)
    {
      match reply {
        case NotOk(_) =>
          error := Some(ServiceUnreachableError);
        case Exception =>
          error := Some(ServiceUnreachableError);
        case Body(success, list) =>
          if success {
            transactions := list;
          } else {
            error := Some(FetchFailedError);
          }
      }
      loading := false;
      pendingFetches := pendingFetches - 1;
    }

    /** What the page shows now. */
    function Content(): View
      reads this, session
    {
      RenderContent(session.isLoggedIn, loading, error, transactions)
    }
  }

  /** The three records the stub history service returns (amounts in cents). */
  const StubHistory := [
    Transaction("24 Aug 2023", "#8343434342", "Bloom Enterprise Sdn Bhd",
      "Recipient references will go here", "DuitNow payment", 120000),
    Transaction("14 Jul 2023", "#8343434342", "Muhammad Andy Asmawi",
      "Recipient references will go here...", "DuitNow payment", 5481016),
    Transaction("12 Jul 2023", "#8343434342", "Utilities Company Sdn Bhd",
      "Recipient references will go here", "DuitNow payment", 10000)
  ]

  /** Logged in with the stub list settled, the page shows three rows with the amounts formatted. */
  lemma StubHistoryRendering()
    ensures var view := RenderContent(true, false, None, StubHistory);
      && view.History? && view.table.Table?
      && |view.table.rows| == 3
      && view.table.rows[0].amount == "RM 1,200.00"
      && view.table.rows[1].amount == "RM 54,810.16"
      && view.table.rows[2].amount == "RM 100.00"
  {
    FormatCurrencyThousand(120000);
    FormatCurrencyTensOfThousands(5481016);
    FormatCurrencyHundred(10000);
  }

  /**
   * Logging in starts a fetch whose successful reply the page then shows as
   * the table; logging out afterwards shows access denied again and clears the
   * list.
   */
  method LoginFetchLogout(page: DashboardPage, list: seq<Transaction>)
    requires page.session.Valid()
    modifies page, page.session
    ensures page.Content() == AccessDenied && page.transactions == []
  {
    page.session.Login();
    var issued := page.SessionEffect();
    assert issued && page.Content() == Loading;
    page.FetchSettled(Body(true, list));
    assert page.Content() == History(RenderTable(list));
    page.session.Logout();
    issued := page.SessionEffect();
    assert !issued;
  }

  /**
   * The effect has no cancellation: a fetch started while logged in can settle
   * after logout and put its list into state. The page still shows access
   * denied, because the session flag is checked first.
   */
  method LateReplyAfterLogout(page: DashboardPage, list: seq<Transaction>)
    requires page.session.Valid()
    modifies page, page.session
    ensures page.transactions == list
    ensures !page.session.isLoggedIn && page.Content() == AccessDenied
  {
    page.session.Login();
    var issued := page.SessionEffect();
    page.session.Logout();
    issued := page.SessionEffect();
    page.FetchSettled(Body(true, list));
  }
}
