/**
  udev_event_execute_rules() (src/core/udev-event.c) with the rules in it: the compiled
  rules run on the event, and what they make of the device goes into links, tag index
  and database.
  */
module EventHandling {
  import opened CStrings
  import opened DeviceNames
  import opened RuleCompiler
  import opened RuleLayout
  import opened RuleParser
  import opened RuleInterpreter
  import opened RuleRuns
  import S = RuleSemantics

  /** What the record has besides the links is read off the event. */
  datatype Readings = Readings(priority: S.World -> int, tags: S.World -> set<Tag>, other: S.World -> bool)

  /** An event for a device: the event before the rules run, their surroundings, and who is found then. */
  datatype Incoming = Incoming(action: Action, id: Id, ifindex: nat, event: S.Event, env: S.Env, found: Id -> bool)

  datatype Occurrence = Leaving(id: Id) | Arriving(incoming: Incoming)

  /** The device as the rules leave it. */
  function DeviceOf(ev: S.Event, id: Id, ifindex: nat, readings: Readings): (dev: Device)
    ensures HasInfo(dev)
  {
    var priority, tags := readings.priority(ev.world), readings.tags(ev.world);
    Device(id, ev.devlinks, priority, tags,
           ev.devlinks != {} || tags != {} || priority != 0 || readings.other(ev.world), ifindex)
  }

  /** Names may be set on events other than remove, for devices with a node or an interface. */
  ghost predicate WellPosed(incoming: Incoming, hasNode: Id -> bool) {
    && incoming.env.devices > 0
    && incoming.env.canSetName == (incoming.action != Remove && (hasNode(incoming.id) || incoming.ifindex > 0))
  }

  /** The database afterwards. */
  ghost function DatabaseAfter(db: Database, all: seq<Rule>, incoming: Incoming, readings: Readings,
                               hasNode: Id -> bool): Database
  {
    if incoming.action == Remove then db - {incoming.id}
    else
      var ev := S.Run(all, 0, incoming.event, incoming.env);
      Updated(db, DeviceOf(ev, incoming.id, incoming.ifindex, readings), hasNode(incoming.id))
  }

  // ---- what is to be seen of a run ----

  /** What is on record for a device; nothing, if there is no record. */
  ghost predicate OnRecord(db: Database, id: Id, links: set<Link>, priority: int, tags: set<Tag>) {
    if id in db then db[id].links == links && db[id].priority == priority && db[id].tags == tags
    else links == {} && priority == 0 && tags == {}
  }

  /** The device claims these links and no others. */
  ghost predicate ClaimsThese(claims: map<Link, set<Id>>, id: Id, links: set<Link>) {
    forall l :: l in links <==> l in claims && id in claims[l]
  }

  /** It has a tag file for these tags and no others. */
  ghost predicate FilesThese(tagFiles: set<(Tag, Id)>, id: Id, tags: set<Tag>) {
    forall tag :: (tag, id) in tagFiles <==> tag in tags
  }

  /**
    What a run made of the device: its tags, and with a node its links and priority, in
    record, claims and tag index; a record at all if there is something to tell.
    */
  ghost predicate Shows(index: DeviceIndex, id: Id, ifindex: nat, ev: S.Event, readings: Readings)
    reads index
  {
    var links, priority := if index.hasNode(id) then ev.devlinks else {},
                           if index.hasNode(id) then readings.priority(ev.world) else 0;
    && (id in index.db <==>
          || index.hasNode(id) || ifindex > 0 || ev.devlinks != {} || readings.tags(ev.world) != {}
          || readings.priority(ev.world) != 0 || readings.other(ev.world))
    && OnRecord(index.db, id, links, priority, readings.tags(ev.world))
    && ClaimsThese(index.claims, id, links)
    && FilesThese(index.tagFiles, id, readings.tags(ev.world))
  }

  /** Nothing is left of the device. */
  ghost predicate Gone(index: DeviceIndex, id: Id)
    reads index
  {
    id !in index.db && ClaimsThese(index.claims, id, {}) && FilesThese(index.tagFiles, id, {})
  }

  /** What is to be seen after an event. */
  ghost predicate Seen(index: DeviceIndex, all: seq<Rule>, incoming: Incoming, readings: Readings)
    reads index
  {
    if incoming.action == Remove then Gone(index, incoming.id)
    else Shows(index, incoming.id, incoming.ifindex, S.Run(all, 0, incoming.event, incoming.env), readings)
  }

  /** Links that a run gave to a device with a node exist. */
  ghost predicate Linked(index: DeviceIndex, all: seq<Rule>, incoming: Incoming)
    reads index
  {
    incoming.action != Remove && index.hasNode(incoming.id) ==>
      forall l :: l in S.Run(all, 0, incoming.event, incoming.env).devlinks ==> l in index.symlinks
  }

  /** In a coherent state claims and tag files are those of the record. */
  lemma RecordShows(index: DeviceIndex, id: Id, links: set<Link>, priority: int, tags: set<Tag>)
    requires index.Coherent() && OnRecord(index.db, id, links, priority, tags)
    ensures ClaimsThese(index.claims, id, links) && FilesThese(index.tagFiles, id, tags)
  {
    forall l
      ensures l in links <==> l in index.claims && id in index.claims[l]
    {
      assert LinkOk(l, index.claims, index.symlinks, index.absent, index.db, index.nodeOf);
      assert id in Claimants(index.db, l) <==> l in links;
    }
  }

  lemma RecordSeen(index: DeviceIndex, all: seq<Rule>, incoming: Incoming, readings: Readings, db: Database)
    requires index.Coherent()
    requires RecordOf(index.db, incoming.id) ==
             RecordOf(DatabaseAfter(db, all, incoming, readings, index.hasNode), incoming.id)
    requires incoming.id in index.db <==> incoming.id in DatabaseAfter(db, all, incoming, readings, index.hasNode)
    ensures Seen(index, all, incoming, readings)
  {
    var id := incoming.id;
    if incoming.action == Remove {
      RecordShows(index, id, {}, 0, {});
    } else {
      var ev := S.Run(all, 0, incoming.event, incoming.env);
      var node := index.hasNode(id);
      RecordShows(index, id, if node then ev.devlinks else {}, if node then readings.priority(ev.world) else 0,
                  readings.tags(ev.world));
    }
  }

  /**
    udev_event_execute_rules().  On a remove event the device has the links of its record
    when the rules run, and still has them afterwards.
    */
  method ExecuteRules(index: DeviceIndex, rules: Rules, incoming: Incoming, readings: Readings, ghost all: seq<Rule>)
    requires index.Coherent() && rules.Valid() && Compiled(rules.Contents(), all) && Flagged(all)
    requires WellPosed(incoming, index.hasNode) && index.Finds(incoming.found)
    modifies index
    ensures index.Coherent()
    ensures index.db == DatabaseAfter(old(index.db), all, incoming, readings, index.hasNode)
    ensures index.absent == if incoming.action == Remove then old(index.absent) - {incoming.id} else old(index.absent)
    ensures Seen(index, all, incoming, readings) && Linked(index, all, incoming)
  {
    ghost var db0 := index.db;
    var Incoming(action, id, ifindex, event, env, found) := incoming;
    if action == Remove {
      var record := RecordOf(index.db, id);
      var event' := event.(devlinks := record.links);
      var ev := ApplyToEvent(rules, event', env, all);
      RemoveKeepsNames(all, 0, event', env);
      index.Delete(id, ev.devlinks, found);
    } else {
      var ev := ApplyToEvent(rules, event, env, all);
      index.Store(DeviceOf(ev, id, ifindex, readings), found);
    }
    RecordSeen(index, all, incoming, readings, db0);
  }

  ghost function DatabaseAfterAll(db: Database, all: seq<Rule>, occurrences: seq<Occurrence>, n: nat,
                                  readings: Readings, hasNode: Id -> bool): Database
    requires n <= |occurrences|
  {
    if n == 0 then db
    else
      var before := DatabaseAfterAll(db, all, occurrences, n - 1, readings, hasNode);
      match occurrences[n - 1]
      case Leaving(_) => before
      case Arriving(incoming) => DatabaseAfter(before, all, incoming, readings, hasNode)
  }

  ghost function AbsentAfterAll(absent: set<Id>, occurrences: seq<Occurrence>, n: nat): set<Id>
    requires n <= |occurrences|
  {
    if n == 0 then absent
    else
      var before := AbsentAfterAll(absent, occurrences, n - 1);
      match occurrences[n - 1]
      case Leaving(id) => before + {id}
      case Arriving(incoming) => if incoming.action == Remove then before - {incoming.id} else before
  }

  /** Whoever has not left is found. */
  ghost predicate Arrives(occurrences: seq<Occurrence>, n: nat, absent: set<Id>, hasNode: Id -> bool)
    requires n < |occurrences|
  {
    occurrences[n].Arriving? ==>
      && WellPosed(occurrences[n].incoming, hasNode)
      && FindsPresent(occurrences[n].incoming.found, AbsentAfterAll(absent, occurrences, n))
  }

  /** The n-th event is the last one for its device. */
  ghost predicate LastEvent(occurrences: seq<Occurrence>, n: nat) {
    && n < |occurrences| && occurrences[n].Arriving?
    && forall m :: n < m < |occurrences| && occurrences[m].Arriving? ==>
                     occurrences[m].incoming.id != occurrences[n].incoming.id
  }

  /** Of every device its last event is to be seen, and if it has not left, its links are there. */
  ghost predicate AllSeen(index: DeviceIndex, all: seq<Rule>, occurrences: seq<Occurrence>, readings: Readings)
    reads index
  {
    forall n {:trigger LastEvent(occurrences, n)} :: 0 <= n && LastEvent(occurrences, n) ==>
      && Seen(index, all, occurrences[n].incoming, readings)
      && (occurrences[n].incoming.id !in index.absent ==> Linked(index, all, occurrences[n].incoming))
  }

  /** Events for others leave a device's record alone. */
  lemma {:induction false} RecordLasts(db: Database, all: seq<Rule>, occurrences: seq<Occurrence>, n: nat, m: nat,
                                       readings: Readings, hasNode: Id -> bool)
    requires LastEvent(occurrences, n) && n < m <= |occurrences|
    ensures var id := occurrences[n].incoming.id;
            var db1 := DatabaseAfterAll(db, all, occurrences, n + 1, readings, hasNode);
            var db2 := DatabaseAfterAll(db, all, occurrences, m, readings, hasNode);
            (id in db2 <==> id in db1) && RecordOf(db2, id) == RecordOf(db1, id)
    decreases m
  {
    if m > n + 1 {
      RecordLasts(db, all, occurrences, n, m - 1, readings, hasNode);
    }
  }

  /** Whoever has not left and has links on record has them. */
  lemma RecordLinked(index: DeviceIndex, all: seq<Rule>, incoming: Incoming, readings: Readings)
    requires index.Coherent() && Seen(index, all, incoming, readings) && incoming.id !in index.absent
    ensures Linked(index, all, incoming)
  {
    if incoming.action != Remove && index.hasNode(incoming.id) {
      forall l | l in S.Run(all, 0, incoming.event, incoming.env).devlinks
        ensures l in index.symlinks
      {
        assert LinkOk(l, index.claims, index.symlinks, index.absent, index.db, index.nodeOf);
        assert incoming.id in Claimants(index.db, l);
      }
    }
  }

  lemma LastSeen(index: DeviceIndex, db: Database, all: seq<Rule>, occurrences: seq<Occurrence>, n: nat,
                 readings: Readings)
    requires index.Coherent() && LastEvent(occurrences, n)
    requires index.db == DatabaseAfterAll(db, all, occurrences, |occurrences|, readings, index.hasNode)
    ensures Seen(index, all, occurrences[n].incoming, readings)
  {
    RecordLasts(db, all, occurrences, n, |occurrences|, readings, index.hasNode);
    RecordSeen(index, all, occurrences[n].incoming, readings,
               DatabaseAfterAll(db, all, occurrences, n, readings, index.hasNode));
  }

  lemma EveryLastSeen(index: DeviceIndex, db: Database, all: seq<Rule>, occurrences: seq<Occurrence>,
                      readings: Readings)
    requires index.Coherent()
    requires index.db == DatabaseAfterAll(db, all, occurrences, |occurrences|, readings, index.hasNode)
    ensures AllSeen(index, all, occurrences, readings)
  {
    forall n | 0 <= n && LastEvent(occurrences, n)
      ensures Seen(index, all, occurrences[n].incoming, readings)
      ensures occurrences[n].incoming.id !in index.absent ==> Linked(index, all, occurrences[n].incoming)
    {
      LastSeen(index, db, all, occurrences, n, readings);
      if occurrences[n].incoming.id !in index.absent {
        RecordLinked(index, all, occurrences[n].incoming, readings);
      }
    }
  }

  /**
    From the rules files to the names: whatever the rules, and in whatever order devices
    come, change, leave and are removed, links, tag index and database stay coherent.
    */
  method RulesAndEvents(index: DeviceIndex, rules: Rules, occurrences: seq<Occurrence>, readings: Readings,
                        ghost all: seq<Rule>)
    requires index.Coherent() && rules.Valid() && Compiled(rules.Contents(), all) && Flagged(all)
    requires forall n :: 0 <= n < |occurrences| ==> Arrives(occurrences, n, index.absent, index.hasNode)
    modifies index
    ensures index.Coherent()
    ensures index.db == DatabaseAfterAll(old(index.db), all, occurrences, |occurrences|, readings, index.hasNode)
    ensures index.absent == AbsentAfterAll(old(index.absent), occurrences, |occurrences|)
    ensures AllSeen(index, all, occurrences, readings)
  {
    for n := 0 to |occurrences|
      invariant index.Coherent() && index.absent == AbsentAfterAll(old(index.absent), occurrences, n)
      invariant index.db == DatabaseAfterAll(old(index.db), all, occurrences, n, readings, index.hasNode)
    {
      assert Arrives(occurrences, n, old(index.absent), index.hasNode);
      match occurrences[n]
      case Leaving(id) =>
        index.Leave(id);
      case Arriving(incoming) =>
        ExecuteRules(index, rules, incoming, readings, all);
    }
    EveryLastSeen(index, old(index.db), all, occurrences, readings);
  }

  /** The same from the files on: the rules are loaded, then the events come. */
  method LoadAndHandle(files: seq<seq<Rule>>, index: DeviceIndex, occurrences: seq<Occurrence>, readings: Readings)
    requires index.Coherent() && Numbered(files) && Flagged(Flatten(files))
    requires forall n :: 0 <= n < |occurrences| ==> Arrives(occurrences, n, index.absent, index.hasNode)
    modifies index
    ensures index.Coherent()
    ensures index.db ==
            DatabaseAfterAll(old(index.db), Flatten(files), occurrences, |occurrences|, readings, index.hasNode)
    ensures index.absent == AbsentAfterAll(old(index.absent), occurrences, |occurrences|)
    ensures AllSeen(index, Flatten(files), occurrences, readings)
  {
    var rules := RulesLoad(files);
    FlattenFacts(files);
    RulesAndEvents(index, rules, occurrences, readings, Flatten(files));
  }
}
