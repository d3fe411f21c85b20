/** The captured network traffic of a browser session: a list of at most 500 entries that is kept
    up to date by request, response and finish events. It always shows the end of the log that
    would result without the limit. */
module TrafficLog {
  import opened Wrappers

  const MAX_TRAFFIC_ENTRIES := 500

  datatype Entry = Entry(
    id: string, url: string, verb: string, requestHeaders: map<string, string>, timestamp: real,
    status: int, statusText: string, mimeType: string, responseHeaders: map<string, string>,
    duration: real, size: int, completed: bool)

  datatype RequestInfo = RequestInfo(url: string, verb: string, headers: map<string, string>)

  datatype ResponseInfo = ResponseInfo(status: int, statusText: string, mimeType: string, headers: map<string, string>)

  /** The events; a missing request or response part makes the handler return at once. */
  datatype Event =
    | RequestWillBeSent(id: string, timestamp: real, request: Option<RequestInfo>)
    | ResponseReceived(id: string, response: Option<ResponseInfo>)
    | LoadingFinished(id: string, timestamp: real, length: int)
    | Cleared

  function NewEntry(id: string, timestamp: real, r: RequestInfo): Entry {
    Entry(id, r.url, r.verb, r.headers, timestamp, 0, "", "", map[], 0.0, 0, false)
  }

  function Responded(e: Entry, r: ResponseInfo): Entry {
    e.(status := r.status, statusText := r.statusText, mimeType := r.mimeType, responseHeaders := r.headers)
  }

  function Finished(e: Entry, timestamp: real, length: int): Entry {
    e.(completed := true, size := length,
       duration := if e.timestamp > 0.0 && timestamp > 0.0 then timestamp - e.timestamp else e.duration)
  }

  function Update(e: Entry, event: Event): Entry {
    match event
    case ResponseReceived(_, Some(r)) => Responded(e, r)
    case LoadingFinished(_, timestamp, length) => Finished(e, timestamp, length)
    case _ => e
  }

  /** The newest entry with the id is updated, if there is one. */
  function UpdateNewest(log: seq<Entry>, id: string, event: Event): (log': seq<Entry>)
    ensures |log'| == |log|
  {
    if log == [] then []
    else
      var n := |log| - 1;
      if log[n].id == id then log[..n] + [Update(log[n], event)] else UpdateNewest(log[..n], id, event) + [log[n]]
  }

  /** The log without a limit. */
  function Log(log: seq<Entry>, event: Event): seq<Entry> {
    match event
    case RequestWillBeSent(id, timestamp, Some(r)) => log + [NewEntry(id, timestamp, r)]
    case ResponseReceived(id, Some(_)) => UpdateNewest(log, id, event)
    case LoadingFinished(id, _, _) => UpdateNewest(log, id, event)
    case Cleared => []
    case _ => log
  }

  function LogAll(events: seq<Event>): seq<Entry> {
    if events == [] then [] else Log(LogAll(events[..|events| - 1]), events[|events| - 1])
  }

  function Newest(log: seq<Entry>, n: nat): seq<Entry> {
    if |log| <= n then log else log[|log| - n..]
  }

  class BrowserDebug {
    var traffic: seq<Entry>
    ghost var history: seq<Event>   // the events so far

    ghost predicate Valid()
      reads this
    {
      traffic == Newest(LogAll(history), MAX_TRAFFIC_ENTRIES)
    }

    constructor ()
      ensures Valid() && history == [] && traffic == []
    {
      traffic, history := [], [];
    }

    method HandleRequestWillBeSent(id: string, timestamp: real, request: Option<RequestInfo>)
      requires Valid()
      modifies this
      ensures Valid() && history == old(history) + [RequestWillBeSent(id, timestamp, request)]
    {
      ghost var event := RequestWillBeSent(id, timestamp, request);
      NewestStep(history, event);
      history := history + [event];
      if request.None? {
        return;
      }
      var entry := NewEntry(id, timestamp, request.value);
      if |traffic| >= MAX_TRAFFIC_ENTRIES {
        traffic := traffic[1..];
      }
      traffic := traffic + [entry];
    }

    method HandleResponseReceived(id: string, response: Option<ResponseInfo>)
      requires Valid()
      modifies this
      ensures Valid() && history == old(history) + [ResponseReceived(id, response)]
    {
      ghost var event := ResponseReceived(id, response);
      NewestStep(history, event);
      history := history + [event];
      if response.None? {
        return;
      }
      var i := FindNewest(id);
      ghost var before := traffic;
      if i >= 0 {
        traffic := traffic[i := Responded(traffic[i], response.value)];
      }
      UpdateNewestAt(before, id, event, i);
    }

    method HandleLoadingFinished(id: string, timestamp: real, length: int)
      requires Valid()
      modifies this
      ensures Valid() && history == old(history) + [LoadingFinished(id, timestamp, length)]
    {
      ghost var event := LoadingFinished(id, timestamp, length);
      NewestStep(history, event);
      history := history + [event];
      var i := FindNewest(id);
      ghost var before := traffic;
      if i >= 0 {
        traffic := traffic[i := traffic[i].(completed := true, size := length)];
        if traffic[i].timestamp > 0.0 && timestamp > 0.0 {
          traffic := traffic[i := traffic[i].(duration := timestamp - traffic[i].timestamp)];
        }
      }
      UpdateNewestAt(before, id, event, i);
    }

    /** The loop both handlers run, from the newest entry down. */
    method FindNewest(id: string) returns (i: int)
      ensures -1 <= i < |traffic| && (i >= 0 ==> traffic[i].id == id)
      ensures forall j :: i < j < |traffic| ==> traffic[j].id != id
    {
      i := |traffic| - 1;
      while i >= 0
        invariant -1 <= i < |traffic|
        invariant forall j :: i < j < |traffic| ==> traffic[j].id != id
      {
        if traffic[i].id == id {
          break;
        }
        i := i - 1;
      }
    }

    method ClearTraffic()
      requires Valid()
      modifies this
      ensures Valid() && history == old(history) + [Cleared] && traffic == []
    {
      NewestStep(history, Cleared);
      history := history + [Cleared];
      traffic := [];
    }

    method GetTraffic() returns (entries: seq<Entry>)
      requires Valid()
      ensures entries == Newest(LogAll(history), MAX_TRAFFIC_ENTRIES) && |entries| <= MAX_TRAFFIC_ENTRIES
    {
      entries := traffic;
    }
  }

  lemma {:induction false} UpdateNewestAt(log: seq<Entry>, id: string, event: Event, i: int)
    requires -1 <= i < |log| && (i >= 0 ==> log[i].id == id) && forall j :: i < j < |log| ==> log[j].id != id
    ensures UpdateNewest(log, id, event) == if i < 0 then log else log[i := Update(log[i], event)]
  {
    if log != [] && i < |log| - 1 {
      UpdateNewestAt(log[..|log| - 1], id, event, i);
    }
  }

  /** Updating the newest match commutes with keeping only the end of the log, also when the match,
      or every match, was dropped. */
  lemma {:induction false} UpdateKeepsWindow(log: seq<Entry>, id: string, event: Event, from: nat)
    requires from <= |log|
    ensures UpdateNewest(log, id, event)[from..] == UpdateNewest(log[from..], id, event)
  {
    if from < |log| {
      var n := |log| - 1;
      assert log[from..][..n - from] == log[..n][from..];
      if log[n].id != id {
        UpdateKeepsWindow(log[..n], id, event, from);
      }
    } else {
      assert log[from..] == [];
    }
  }

  /** One event on the bounded list shows what it does to the unbounded log. */
  lemma NewestStep(history: seq<Event>, event: Event)
    ensures LogAll(history + [event]) == Log(LogAll(history), event)
    ensures var log := LogAll(history);
            Newest(Log(log, event), MAX_TRAFFIC_ENTRIES) == BoundedLog(Newest(log, MAX_TRAFFIC_ENTRIES), event)
  {
    var log := LogAll(history);
    assert (history + [event])[..|history|] == history;
    if |log| > MAX_TRAFFIC_ENTRIES && !event.RequestWillBeSent? && !event.Cleared? {
      UpdateKeepsWindow(log, event.id, event, |log| - MAX_TRAFFIC_ENTRIES);
    }
  }

  /** What the handlers do to the bounded list. */
  function BoundedLog(traffic: seq<Entry>, event: Event): seq<Entry> {
    match event
    case RequestWillBeSent(id, timestamp, Some(r)) =>
      (if |traffic| >= MAX_TRAFFIC_ENTRIES then traffic[1..] else traffic) + [NewEntry(id, timestamp, r)]
    case _ => Log(traffic, event)
  }

  function BoundedLogAll(events: seq<Event>): seq<Entry> {
    if events == [] then [] else BoundedLog(BoundedLogAll(events[..|events| - 1]), events[|events| - 1])
  }

  /** For every sequence of events, repeated request ids and updates of dropped entries included, the
      bounded list is the end of the unbounded log. */
  lemma {:induction false} TrafficIsNewestLog(events: seq<Event>)
    ensures BoundedLogAll(events) == Newest(LogAll(events), MAX_TRAFFIC_ENTRIES)
  {
    if events != [] {
      var n := |events| - 1;
      TrafficIsNewestLog(events[..n]);
      NewestStep(events[..n], events[n]);
      assert events[..n] + [events[n]] == events;
    }
  }
}
