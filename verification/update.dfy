/** The scraper returned by `module.exports` (tasks/jsdelivr.js:18-28): list the
    files, then parse them. The events of `parse` are any schedule of the listed
    paths and of the completions of their metadata fetches. */
module Update {
  import opened Wrappers
  import opened Errors
  import opened Paths
  import opened CatalogBuilder
  import opened CatalogProperties
  import opened Publish
  import opened Listing

  /** The paths the iterator visited, in order. */
  function Visits(events: seq<Event>): seq<string>
  {
    if |events| == 0 then []
    else (if events[0].Visit? then [events[0].path] else []) + Visits(events[1..])
  }

  /** The libraries whose metadata fetch completed, in order. */
  function MetaLibs(events: seq<Event>): seq<string>
  {
    if |events| == 0 then []
    else (if events[0].MetaArrived? then [events[0].lib] else []) + MetaLibs(events[1..])
  }

  /** The libraries that have an `info.ini` among `files`. */
  function InfoLibs(files: seq<string>): seq<string>
  {
    if |files| == 0 then []
    else
      var f := files[0];
      (if Sep in f && Classify(f).MetaRef? then [Classify(f).lib] else []) + InfoLibs(files[1..])
  }

  /** The libraries that have an asset path among `files`. */
  function AssetLibs(files: seq<string>): set<string>
  {
    if |files| == 0 then {}
    else
      var f := files[0];
      (if Sep in f && Classify(f).AssetRef? then {Classify(f).lib} else {}) + AssetLibs(files[1..])
  }

  /** `events` is a run of `parse` over `files`: every path is visited once, in
      order; every `info.ini` gets exactly one metadata completion, after its visit. */
  ghost predicate IsSchedule(events: seq<Event>, files: seq<string>)
  {
    && Visits(events) == files
    && multiset(MetaLibs(events)) == multiset(InfoLibs(files))
    && forall i :: 0 <= i < |events| && events[i].MetaArrived? ==>
         exists j :: 0 <= j < i && events[j] == Visit(events[i].lib + [Sep] + InfoFile)
  }

  lemma {:induction false} VisitsMember(events: seq<Event>, i: nat)
    requires i < |events| && events[i].Visit?
    ensures events[i].path in Visits(events)
    decreases |events|
  {
    if i > 0 {
      VisitsMember(events[1..], i - 1);
    }
  }

  /** A schedule of paths that all contain `/` is well formed for `parse`. */
  lemma ScheduleWellFormed(events: seq<Event>, files: seq<string>)
    requires IsSchedule(events, files)
    requires forall f :: f in files ==> Sep in f
    ensures WellFormed(events)
  {
    forall i | 0 <= i < |events| && events[i].Visit? ensures Sep in events[i].path {
      VisitsMember(events, i);
    }
  }

  lemma ResolvedTail(events: seq<Event>)
    requires |events| > 0 && WellFormed(events)
    ensures WellFormed(events[1..])
    ensures Resolved(events) == [Resolve(events[0])] + Resolved(events[1..])
  {
    assert forall i :: 0 <= i < |events| - 1 ==> events[1..][i] == events[i + 1];
  }

  /** Without a failed fetch, the libraries the actions target are those of the
      visited asset paths and those of the metadata completions. */
  lemma {:induction false} LibsOfEvents(events: seq<Event>)
    requires WellFormed(events)
    requires forall i :: 0 <= i < |events| ==> !FailedFetch(events[i])
    ensures Libs(Resolved(events)) == AssetLibs(Visits(events)) + set l | l in MetaLibs(events)
    decreases |events|
  {
    if |events| > 0 {
      ResolvedTail(events);
      LibsOfEvents(events[1..]);
      LibsHead(events);
      EventLibsHead(events);
    }
  }

  lemma LibsHead(events: seq<Event>)
    requires |events| > 0 && WellFormed(events)
    ensures WellFormed(events[1..])
    ensures Libs(Resolved(events)) == Targets(Resolve(events[0])) + Libs(Resolved(events[1..]))
  {
    ResolvedTail(events);
    var actions := Resolved(events);
    assert actions[1..] == Resolved(events[1..]);
  }

  /** The first event contributes exactly the library its action targets. */
  lemma EventLibsHead(events: seq<Event>)
    requires |events| > 0 && WellFormed(events) && !FailedFetch(events[0])
    ensures AssetLibs(Visits(events)) + (set l | l in MetaLibs(events))
            == Targets(Resolve(events[0])) + AssetLibs(Visits(events[1..])) + (set l | l in MetaLibs(events[1..]))
  {
    if events[0].Visit? {
      VisitLibsHead(events);
    } else {
      MetaLibsHead(events);
      assert Targets(Resolve(events[0])) == {events[0].lib};
    }
  }

  lemma VisitLibsHead(events: seq<Event>)
    requires |events| > 0 && events[0].Visit? && Sep in events[0].path
    ensures AssetLibs(Visits(events)) == Targets(Resolve(events[0])) + AssetLibs(Visits(events[1..]))
    ensures MetaLibs(events) == MetaLibs(events[1..])
  {
    var vs := Visits(events[1..]);
    assert Visits(events) == [events[0].path] + vs;
    assert ([events[0].path] + vs)[1..] == vs;
  }

  lemma MetaLibsHead(events: seq<Event>)
    requires |events| > 0 && events[0].MetaArrived? && events[0].fetch.Parsed?
    ensures Visits(events) == Visits(events[1..])
    ensures (set l | l in MetaLibs(events)) == {events[0].lib} + set l | l in MetaLibs(events[1..])
  {
    var ms := MetaLibs(events[1..]);
    assert MetaLibs(events) == [events[0].lib] + ms;
    assert (set l | l in [events[0].lib] + ms) == {events[0].lib} + set l | l in ms;
  }

  /** A successful run over a schedule of `files` has a record for exactly the
      libraries with an asset path or an `info.ini` among `files`. */
  lemma ScheduleLibraries(events: seq<Event>, files: seq<string>)
    requires IsSchedule(events, files)
    requires forall f :: f in files ==> Sep in f
    ensures WellFormed(events)
    ensures Parse(events).Ok? ==>
              Parse(events).value.Keys == AssetLibs(files) + set l | l in InfoLibs(files)
  {
    ScheduleWellFormed(events, files);
    if Parse(events).Ok? {
      var actions := Resolved(events);
      RunFails(map[], actions);
      forall i | 0 <= i < |events| ensures !FailedFetch(events[i]) {
        assert !actions[i].Abort?;
      }
      RunFrame(map[], actions);
      LibsOfEvents(events);
      forall l ensures l in MetaLibs(events) <==> l in InfoLibs(files) {
        assert l in MetaLibs(events) <==> l in multiset(MetaLibs(events));
        assert l in InfoLibs(files) <==> l in multiset(InfoLibs(files));
      }
    }
  }

  /** The scraper: a listing error is passed on unchanged; otherwise the result of
      `parse` over a schedule of the listed files. */
  method Scrape(content: Reply<seq<ContentEntry>>, root: TreeReply, completions: seq<Completion>, events: seq<Event>)
    returns (r: Result<seq<Published>, Error>)
    requires Descends(root, completions)
    requires GetFiles(content, root, completions).Ok? ==> IsSchedule(events, GetFiles(content, root, completions).value)
    ensures GetFiles(content, root, completions).Err? ==> r == Err(GetFiles(content, root, completions).error)
    ensures GetFiles(content, root, completions).Ok? ==>
              && WellFormed(events)
              && (Parse(events).Err? ==> r == Err(Parse(events).error))
              && (Parse(events).Ok? ==> r.Ok? && exists order :: PublishedAs(r.value, Parse(events).value, order))
  {
    match GetFiles(content, root, completions)
    case Err(e) =>
      r := Err(e);
    case Ok(files) =>
      ScheduleWellFormed(events, files);
      r := ParseAndPublish(events);
  }
}
