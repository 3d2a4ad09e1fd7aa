/**
 `main`: one run of fetch -> reconcile -> save. The environment check, the login and
 the file load are inputs; what the run saves (if anything) and what it announces are
 the outputs.
 */
module Pipeline {
  import opened Wrappers
  import opened Reconciler
  import opened Fetcher

  /** What one run leaves behind: the map written to `unread.json` (`None` when nothing is
      written) and the notifications pushed, in order. */
  datatype Run = Run(saved: Option<State>, notifications: seq<Notification>)

  /** One run of `main`. `configured` says whether all four environment variables are set;
      `token` is what login returned; `prior` is the loaded map (empty when the file is
      missing or unreadable). Nothing is saved only when the configuration is incomplete
      or there is no token: a failed first page still overwrites the saved map with an
      empty one, and otherwise the reconciled map replaces it wholesale. */
  method RunOnce(configured: bool, token: Option<string>, first: FirstReply,
                 server: int -> PageReply, prior: State)
    returns (run: Run)
    ensures run.saved.None? <==> !configured || !HasToken(token)
    ensures run.saved.None? ==> run.notifications == []
    ensures configured && HasToken(token) && !first.FirstOk? ==> run == Run(Some(map[]), [])
    ensures configured && HasToken(token) && first.FirstOk? ==>
              var outcome := Reconcile(Gathered(server, PageCount(first.pages)), prior);
              run == Run(Some(outcome.state), outcome.notifications)
  {
    if !configured {
      return Run(None, []);
    }
    var data := FetchMangaData(token, first, server);
    if data.NoData? {
      return Run(None, []);
    }
    var outcome := Reconcile(data.entries, prior);
    return Run(Some(outcome.state), outcome.notifications);
  }
}
