/** `simulate_real_time_alerts` and the per-supplier decision of the alerts
    tab, with the sanctions and news services' answers as parameters. */
module Alerts {
  import opened Options
  import opened Risk

  /** One real-time alert: the supplier's id and the label it was flagged
      with (the message text is only a rendering of these two). */
  datatype Alert = Alert(supplierId: string, risk: RiskLabel)

  /** The labels that raise an alert. */
  predicate Alarming(r: RiskLabel) {
    r == HighRisk || r == DangerousRisk
  }

  /** The alerts for a table, one per alarming row, in row order. */
  function AlertsFor(table: seq<Supplier>): (alerts: seq<Alert>)
    ensures |alerts| <= |table|
  {
    if table == [] then []
    else
      var last := table[|table| - 1];
      AlertsFor(table[..|table| - 1]) + (if Alarming(last.risk) then [Alert(last.id, last.risk)] else [])
  }

  /** The number of alarming rows. */
  function AlarmingCount(table: seq<Supplier>): nat {
    if table == [] then 0
    else AlarmingCount(table[..|table| - 1]) + (if Alarming(table[|table| - 1].risk) then 1 else 0)
  }

  /** The loop of `simulate_real_time_alerts`. */
  method SimulateRealTimeAlerts(table: seq<Supplier>) returns (alerts: seq<Alert>)
    ensures alerts == AlertsFor(table)
  {
    alerts := [];
    for i := 0 to |table|
      invariant alerts == AlertsFor(table[..i])
    {
      assert table[..i + 1][..i] == table[..i];
      if table[i].risk == HighRisk || table[i].risk == DangerousRisk {
        alerts := alerts + [Alert(table[i].id, table[i].risk)];
      }
    }
    assert table[..|table|] == table;
  }

  /** Exactly one alert per alarming row. */
  lemma {:induction false} AlertsCount(table: seq<Supplier>)
    ensures |AlertsFor(table)| == AlarmingCount(table)
  {
    if table != [] {
      AlertsCount(table[..|table| - 1]);
    }
  }

  /** Every alert names an alarming row of the table and carries its label. */
  lemma {:induction false} AlertsSound(table: seq<Supplier>)
    ensures forall a :: a in AlertsFor(table) ==>
              Alarming(a.risk) && exists k :: 0 <= k < |table| && table[k].id == a.supplierId && table[k].risk == a.risk
  {
    if table != [] {
      var front := table[..|table| - 1];
      AlertsSound(front);
      forall a | a in AlertsFor(table)
        ensures Alarming(a.risk) && exists k :: 0 <= k < |table| && table[k].id == a.supplierId && table[k].risk == a.risk
      {
        if a in AlertsFor(front) {
          var k :| 0 <= k < |front| && front[k].id == a.supplierId && front[k].risk == a.risk;
          assert table[k] == front[k];
        } else {
          assert table[|table| - 1].id == a.supplierId;
        }
      }
    }
  }

  /** Every alarming row raises its alert. */
  lemma {:induction false} AlertsComplete(table: seq<Supplier>, k: nat)
    requires k < |table| && Alarming(table[k].risk)
    ensures Alert(table[k].id, table[k].risk) in AlertsFor(table)
  {
    if k < |table| - 1 {
      var front := table[..|table| - 1];
      AlertsComplete(front, k);
    }
  }

  /** Order is kept: the alerts of a longer table extend those of its prefix,
      and the alerts for two consecutive blocks of rows come block by block. */
  lemma {:induction false} AlertsConcat(a: seq<Supplier>, b: seq<Supplier>)
    ensures AlertsFor(a + b) == AlertsFor(a) + AlertsFor(b)
  {
    if b == [] {
      assert a + b == a;
    } else {
      var front := b[..|b| - 1];
      AlertsConcat(a, front);
      assert (a + b)[..|a + b| - 1] == a + front;
    }
  }

  /** Rows that are low or moderate risk raise nothing. */
  lemma {:induction false} CalmTableNoAlerts(table: seq<Supplier>)
    requires forall k :: 0 <= k < |table| ==> !Alarming(table[k].risk)
    ensures AlertsFor(table) == []
  {
    if table != [] {
      CalmTableNoAlerts(table[..|table| - 1]);
    }
  }

  /** The external service a request went to. */
  datatype Service = SanctionsService | NewsService

  /** What the alerts tab shows for one supplier. A failed request shows
      its error line in the supplier's block. */
  datatype Notice =
    | RequestFailed(supplierId: string, service: Service)
    | SanctionAlert(supplierId: string, matches: seq<string>)
    | NewsWarning(supplierId: string, article: Article)
    | NoAlerts(supplierId: string)

  /** The three fields of a news article the warning shows. */
  datatype Article = Article(title: string, link: string, pubDate: string)

  /** `check_sanctions`: the service's result names, or `None` when the
      request failed (the error is reported and the supplier counts as not
      flagged). */
  function CheckSanctions(response: Option<seq<string>>): (r: (bool, seq<string>))
    ensures r.0 <==> response.Some? && response.value != []
    ensures r.1 == if r.0 then response.value else []
  {
    match response
    case None => (false, [])
    case Some(names) => if names != [] then (true, names) else (false, [])
  }

  /** `get_esg_news_newsdata`: the articles found, or none when the request
      failed. */
  function NewsFor(response: Option<seq<Article>>): (news: seq<Article>)
    ensures response.None? ==> news == []
    ensures response.Some? ==> news == response.value
  {
    match response
    case None => []
    case Some(articles) => articles
  }

  /** Whether a service's answer found anything. */
  predicate Found<T>(response: Option<seq<T>>) {
    response.Some? && response.value != []
  }

  /** The first notice: the sanctions request's error line, or its alert
      carrying every match, or nothing. */
  function SanctionNotices(id: string, sanctions: Option<seq<string>>): (ns: seq<Notice>)
    ensures sanctions.None? ==> ns == [RequestFailed(id, SanctionsService)]
    ensures Found(sanctions) ==> ns == [SanctionAlert(id, sanctions.value)]
    ensures sanctions == Some([]) ==> ns == []
  {
    var (flagged, matches) := CheckSanctions(sanctions);
    (if sanctions.None? then [RequestFailed(id, SanctionsService)] else [])
    + (if flagged then [SanctionAlert(id, matches)] else [])
  }

  /** `news[:2]`, one warning per article. */
  function Warnings(id: string, news: seq<Article>): (ws: seq<Notice>)
    ensures |ws| == if |news| <= 2 then |news| else 2
    ensures forall k :: 0 <= k < |ws| ==> ws[k] == NewsWarning(id, news[k])
  {
    var shown := if |news| <= 2 then news else news[..2];
    seq(|shown|, k requires 0 <= k < |shown| => NewsWarning(id, shown[k]))
  }

  /** The notices for one supplier, in the order the tab shows them, given
      the two services' answers (`None` for a failed request): the
      sanctions request's error line or its alert, the news request's error
      line, a warning for each of the first two articles, and "no alerts"
      when neither service found anything. */
  function SupplierNotices(id: string, sanctions: Option<seq<string>>, articles: Option<seq<Article>>): (ns: seq<Notice>)
    ensures RequestFailed(id, SanctionsService) in ns <==> sanctions.None?
    ensures RequestFailed(id, NewsService) in ns <==> articles.None?
  {
    var flagged := CheckSanctions(sanctions).0;
    var news := NewsFor(articles);
    var head := SanctionNotices(id, sanctions);
    var failed := if articles.None? then [RequestFailed(id, NewsService)] else [];
    var warnings := Warnings(id, news);
    var tail := if !flagged && news == [] then [NoAlerts(id)] else [];
    assert forall n :: n in warnings ==> n.NewsWarning?;
    head + failed + warnings + tail
  }

  /** The "no alerts" notice appears exactly when neither service found
      anything, and when both services answered with nothing it is the only
      notice. */
  lemma NoAlertsExactly(id: string, sanctions: Option<seq<string>>, articles: Option<seq<Article>>)
    ensures NoAlerts(id) in SupplierNotices(id, sanctions, articles) <==> !Found(sanctions) && !Found(articles)
    ensures sanctions == Some([]) && articles == Some([]) ==> SupplierNotices(id, sanctions, articles) == [NoAlerts(id)]
  {
    var ns := SupplierNotices(id, sanctions, articles);
    var head := SanctionNotices(id, sanctions);
    var failed := if articles.None? then [RequestFailed(id, NewsService)] else [];
    var warnings := Warnings(id, NewsFor(articles));
    if !Found(sanctions) && !Found(articles) {
      assert ns == head + failed + [NoAlerts(id)];
    } else {
      assert ns == head + failed + warnings;
      assert NoAlerts(id) !in head + failed;
      assert NoAlerts(id) !in warnings;
    }
  }

  /** When neither service found anything, "no alerts" comes last, after
      nothing but the error lines of failed requests. */
  lemma NoAlertsLast(id: string, sanctions: Option<seq<string>>, articles: Option<seq<Article>>)
    ensures !Found(sanctions) && !Found(articles) ==>
              var ns := SupplierNotices(id, sanctions, articles);
              ns[|ns| - 1] == NoAlerts(id) && forall k :: 0 <= k < |ns| - 1 ==> ns[k].RequestFailed?
  {
    if !Found(sanctions) && !Found(articles) {
      var ns := SupplierNotices(id, sanctions, articles);
      var failures := SanctionNotices(id, sanctions) + (if articles.None? then [RequestFailed(id, NewsService)] else []);
      assert forall k :: 0 <= k < |failures| ==> failures[k].RequestFailed?;
      assert ns == failures + [NoAlerts(id)];
    }
  }

  /** The error line or the sanctions alert comes first, the alert carrying
      every match; the news request's error line comes next; then warnings
      for at most the first two articles, in order. */
  lemma NewsWarningsFirstTwo(id: string, sanctions: Option<seq<string>>, articles: Option<seq<Article>>)
    ensures var ns := SupplierNotices(id, sanctions, articles);
            var news := NewsFor(articles);
            var s := if sanctions.None? || Found(sanctions) then 1 else 0;
            var off := s + (if articles.None? then 1 else 0);
            && |ns| == off + (if |news| <= 2 then |news| else 2) + (if !Found(sanctions) && news == [] then 1 else 0)
            && (sanctions.None? ==> ns[0] == RequestFailed(id, SanctionsService))
            && (Found(sanctions) ==> ns[0] == SanctionAlert(id, sanctions.value))
            && (articles.None? ==> ns[s] == RequestFailed(id, NewsService))
            && forall k :: 0 <= k < |news| && k < 2 ==> ns[off + k] == NewsWarning(id, news[k])
  {
    var news := NewsFor(articles);
    var head := SanctionNotices(id, sanctions);
    var failed := if articles.None? then [RequestFailed(id, NewsService)] else [];
    var warnings := Warnings(id, news);
    var tail := if !Found(sanctions) && news == [] then [NoAlerts(id)] else [];
    var front := head + failed;
    assert SupplierNotices(id, sanctions, articles) == front + warnings + tail;
    assert |front| == (if sanctions.None? || Found(sanctions) then 1 else 0) + (if articles.None? then 1 else 0);
  }

  /** Whatever the services answer, a supplier gets at least one and at most
      three notices. */
  lemma NoticesBounds(id: string, sanctions: Option<seq<string>>, articles: Option<seq<Article>>)
    ensures 1 <= |SupplierNotices(id, sanctions, articles)| <= 3
  {
    NewsWarningsFirstTwo(id, sanctions, articles);
  }
}
