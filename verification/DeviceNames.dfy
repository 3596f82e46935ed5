/**
  Names of device nodes: claims on symlinks, the symlinks themselves, the tag index and
  the database, over add, change and remove events (src/core/udev-node.c,
  src/core/udev-event.c, lib/device/libudev-device-private.c).

  A directory of claims lists the devices that want a link; a tag index file exists or
  not; a database record has the links, priority and tags a device was given.  A device
  that has left the system while its remove event waits is absent: it keeps its record
  and its claims, and need not be found any more.
  */
module DeviceNames {
  import opened CStrings

  type Id = CStr
  type Link = CStr
  type Tag = CStr
  type Node = CStr

  datatype Record = Record(links: set<Link>, priority: int, tags: set<Tag>)
  type Database = map<Id, Record>

  /** A device as it is handled, after the rules: hasInfo if there is anything to store, links and tags included. */
  datatype Device = Device(id: Id, links: set<Link>, priority: int, tags: set<Tag>, hasInfo: bool, ifindex: nat)

  datatype Action = Add | Change | Remove
  datatype Target = NoTarget | Target(node: Node)

  function RecordOf(db: Database, id: Id): Record {
    if id in db then db[id] else Record({}, 0, {})
  }

  /** The devices whose records list the link. */
  ghost function Claimants(db: Database, slink: Link): set<Id> {
    set id | id in db && slink in db[id].links
  }

  function ClaimsOn(claims: map<Link, set<Id>>, slink: Link): set<Id> {
    if slink in claims then claims[slink] else {}
  }

  /** The node is that of one of these devices, and of those not absent none has a higher priority. */
  ghost predicate Prevails(node: Node, ids: set<Id>, absent: set<Id>, db: Database, nodeOf: Id -> Node) {
    exists w :: w in ids && node == nodeOf(w) &&
                forall id :: id in ids && id !in absent ==> RecordOf(db, id).priority <= RecordOf(db, w).priority
  }

  /** The symlink points to a device that prevails; it is missing only if every device that claims it is absent. */
  ghost predicate Points(symlinks: map<Link, Node>, slink: Link, ids: set<Id>, absent: set<Id>, db: Database,
                         nodeOf: Id -> Node) {
    if slink in symlinks then Prevails(symlinks[slink], ids, absent, db, nodeOf) else ids <= absent
  }

  /** Claims and symlink of one name agree with the database. */
  ghost predicate LinkOk(slink: Link, claims: map<Link, set<Id>>, symlinks: map<Link, Node>, absent: set<Id>,
                         db: Database, nodeOf: Id -> Node) {
    && ClaimsOn(claims, slink) == Claimants(db, slink)
    && Points(symlinks, slink, Claimants(db, slink), absent, db, nodeOf)
  }

  /** With no claimant absent: the symlink is there exactly if there is one, and points to one of highest priority. */
  lemma PointsExactly(symlinks: map<Link, Node>, slink: Link, ids: set<Id>, absent: set<Id>, db: Database,
                      nodeOf: Id -> Node)
    requires ids !! absent && Points(symlinks, slink, ids, absent, db, nodeOf)
    ensures slink in symlinks <==> ids != {}
    ensures slink in symlinks ==>
              exists w :: w in ids && symlinks[slink] == nodeOf(w) &&
                          forall id :: id in ids ==> RecordOf(db, id).priority <= RecordOf(db, w).priority
  {
    if slink in symlinks {
      var w :| w in ids && symlinks[slink] == nodeOf(w) &&
               forall id :: id in ids && id !in absent ==> RecordOf(db, id).priority <= RecordOf(db, w).priority;
      assert forall id :: id in ids ==> id !in absent;
    }
  }

  /** The tag index agrees with the database. */
  ghost predicate TagsOk(tagFiles: set<(Tag, Id)>, db: Database) {
    forall tag, id :: (tag, id) in tagFiles <==> id in db && tag in db[id].tags
  }

  /** The record stored for a device; links only for one with a device node. */
  function NewRecord(dev: Device, hasNode: bool): Record {
    if !dev.hasInfo then Record({}, 0, {})
    else Record(if hasNode then dev.links else {}, if hasNode then dev.priority else 0, dev.tags)
  }

  function Updated(db: Database, dev: Device, hasNode: bool): Database {
    if !dev.hasInfo && !hasNode && dev.ifindex == 0 then db - {dev.id}
    else db[dev.id := NewRecord(dev, hasNode)]
  }

  // ---- links on the way ----

  /** Only the priorities of the devices themselves matter, and whether they are absent. */
  lemma PointsSame(symlinks: map<Link, Node>, slink: Link, ids: set<Id>, absent: set<Id>, absent': set<Id>,
                   db: Database, db': Database, nodeOf: Id -> Node)
    requires forall id :: id in ids ==> RecordOf(db', id).priority == RecordOf(db, id).priority
    requires forall id :: id in ids && id in absent ==> id in absent'
    requires Points(symlinks, slink, ids, absent, db, nodeOf)
    ensures Points(symlinks, slink, ids, absent', db', nodeOf)
  {
    if slink in symlinks {
      var w :| w in ids && symlinks[slink] == nodeOf(w) &&
               forall id :: id in ids && id !in absent ==> RecordOf(db, id).priority <= RecordOf(db, w).priority;
      assert forall id :: id in ids && id !in absent' ==> RecordOf(db', id).priority <= RecordOf(db', w).priority;
    }
  }

  /** Of two databases that differ in a device only, and of devices with or without it. */
  lemma SamePriorities(db: Database, db0: Database, id: Id, priority: int, ids: set<Id>, add: bool)
    requires forall o :: o != id ==> RecordOf(db, o) == RecordOf(db0, o)
    requires id in ids ==> add
    ensures var db1 := if add then WithPriority(db0, id, priority) else db0;
            forall o :: o in ids ==> RecordOf(db1, o).priority == RecordOf(WithPriority(db, id, priority), o).priority
  {
    forall o | o in ids
      ensures RecordOf(WithPriority(db, id, priority), o).priority ==
              RecordOf(if add then WithPriority(db0, id, priority) else db0, o).priority
    {
      assert o != id ==> RecordOf(db, o) == RecordOf(db0, o);
    }
  }

  /** While a device is handled: its claim on the link is gone if it gave the link up, renewed if it was given. */
  ghost function Pending(db: Database, slink: Link, id: Id, gone: set<Link>, done: set<Link>): set<Id> {
    (Claimants(db, slink) - if slink in gone then {id} else {}) + if slink in done then {id} else {}
  }

  function WithPriority(db: Database, id: Id, priority: int): Database {
    db[id := RecordOf(db, id).(priority := priority)]
  }

  /** One link, while a device gives up some of its links and renews others at its new priority. */
  ghost predicate Stage(slink: Link, claims: map<Link, set<Id>>, symlinks: map<Link, Node>, absent: set<Id>,
                        db: Database, nodeOf: Id -> Node, id: Id, priority: int, gone: set<Link>, done: set<Link>) {
    var ids := Pending(db, slink, id, gone, done);
    && ClaimsOn(claims, slink) == ids
    && Points(symlinks, slink, ids, absent, if slink in done then WithPriority(db, id, priority) else db, nodeOf)
  }

  /** Somebody who claims the link is there. */
  ghost predicate ClaimantFound(claims: map<Link, set<Id>>, slink: Link, found: Id -> bool) {
    exists o :: o in ClaimsOn(claims, slink) && found(o)
  }

  /** Nothing but the one link is touched. */
  ghost predicate OnlyLink(slink: Link, claims: map<Link, set<Id>>, symlinks: map<Link, Node>,
                           claims': map<Link, set<Id>>, symlinks': map<Link, Node>) {
    forall l {:trigger ClaimsOn(claims', l)} {:trigger l in symlinks'} :: l != slink ==>
      && ClaimsOn(claims', l) == ClaimsOn(claims, l)
      && (l in symlinks' <==> l in symlinks)
      && (l in symlinks ==> symlinks'[l] == symlinks[l])
  }

  ghost predicate AllLinked(links: set<Link>, symlinks: map<Link, Node>) {
    forall l :: l in links ==> l in symlinks
  }

  lemma StillLinked(links: set<Link>, slink: Link, claims: map<Link, set<Id>>, symlinks: map<Link, Node>,
                    claims': map<Link, set<Id>>, symlinks': map<Link, Node>)
    requires AllLinked(links, symlinks) && slink in symlinks'
    requires OnlyLink(slink, claims, symlinks, claims', symlinks')
    ensures AllLinked(links + {slink}, symlinks')
  {
  }

  lemma PointsKept(symlinks: map<Link, Node>, symlinks': map<Link, Node>, slink: Link, ids: set<Id>, absent: set<Id>,
                   db: Database, nodeOf: Id -> Node)
    requires Points(symlinks, slink, ids, absent, db, nodeOf)
    requires (slink in symlinks' <==> slink in symlinks) && (slink in symlinks ==> symlinks'[slink] == symlinks[slink])
    ensures Points(symlinks', slink, ids, absent, db, nodeOf)
  {
  }

  /** In the end every link agrees with the database in which the device has its new record. */
  lemma StageDone(slink: Link, claims: map<Link, set<Id>>, symlinks: map<Link, Node>, absent: set<Id>, absent': set<Id>,
                  db: Database, db': Database, nodeOf: Id -> Node, id: Id, priority: int, gone: set<Link>,
                  done: set<Link>)
    requires Stage(slink, claims, symlinks, absent, db, nodeOf, id, priority, gone, done)
    requires RecordOf(db, id).links - done <= gone && gone !! done
    requires absent' == absent || (done == {} && absent' == absent - {id})
    requires forall o :: o != id ==> (o in db' <==> o in db) && RecordOf(db', o) == RecordOf(db, o)
    requires RecordOf(db', id).links == done && (done != {} ==> RecordOf(db', id).priority == priority)
    ensures LinkOk(slink, claims, symlinks, absent', db', nodeOf)
  {
    var ids := Pending(db, slink, id, gone, done);
    forall o
      ensures o in ids <==> o in Claimants(db', slink)
    {
      if o != id {
        assert o in db && slink in db[o].links <==> o in db' && slink in db'[o].links;
      }
    }
    assert ids == Claimants(db', slink);
    PointsSame(symlinks, slink, ids, absent, absent', if slink in done then WithPriority(db, id, priority) else db,
               db', nodeOf);
  }

  class DeviceIndex {
    const nodeOf: Id -> Node
    // devices with a major number
    const hasNode: Id -> bool
    var db: Database
    var claims: map<Link, set<Id>>
    var symlinks: map<Link, Node>
    var tagFiles: set<(Tag, Id)>
    // devices that left the system, and whose remove event is still to come
    ghost var absent: set<Id>

    ghost predicate Coherent()
      reads this
    {
      && (forall slink {:trigger LinkOk(slink, claims, symlinks, absent, db, nodeOf)} ::
            LinkOk(slink, claims, symlinks, absent, db, nodeOf))
      && TagsOk(tagFiles, db)
      && (forall id :: id in db && !hasNode(id) ==> db[id].links == {})
    }

    constructor (nodeOf: Id -> Node, hasNode: Id -> bool)
      ensures Coherent() && db == map[] && absent == {}
      ensures this.nodeOf == nodeOf && this.hasNode == hasNode
    {
      this.nodeOf, this.hasNode := nodeOf, hasNode;
      db, claims, symlinks, tagFiles := map[], map[], map[], {};
      absent := {};
    }

    ghost predicate Finds(found: Id -> bool)
      reads this`absent
    {
      FindsPresent(found, absent)
    }

    /** link_find_prioritized(): the entries of the directory come in any order. */
    method FindPrioritized(id: Id, priority: int, add: bool, stack: set<Id>, found: Id -> bool) returns (target: Target)
      requires Finds(found)
      ensures var others := stack - {id};
              && (target == NoTarget <==> !add && forall o :: o in others ==> !found(o))
              && (target.Target? ==>
                    Prevails(target.node, others + if add then {id} else {}, absent, WithPriority(db, id, priority),
                             nodeOf))
    {
      var best := 0;
      target := NoTarget;
      ghost var db' := WithPriority(db, id, priority);
      ghost var seen: set<Id> := {};
      if add {
        best, target, seen := priority, Target(nodeOf(id)), {id};
      }
      var left := stack;
      while left != {}
        invariant left <= stack
        invariant forall o :: o in seen <==> (add && o == id) || (o in stack && o !in left && o != id && found(o))
        invariant seen == {} <==> target == NoTarget
        invariant seen != {} ==> exists w :: w in seen && target.node == nodeOf(w) && best == RecordOf(db', w).priority
        invariant forall o :: o in seen ==> RecordOf(db', o).priority <= best
        decreases left
      {
        var o :| o in left;
        left := left - {o};
        if o != id && found(o) {
          seen := seen + {o};
          var p := RecordOf(db, o).priority;
          if target == NoTarget || p > best {
            best, target := p, Target(nodeOf(o));
            assert o in seen && target.node == nodeOf(o) && best == RecordOf(db', o).priority;
          }
        }
      }
      if seen != {} {
        ghost var w :| w in seen && target.node == nodeOf(w) && best == RecordOf(db', w).priority;
        assert w in stack - {id} + if add then {id} else {};
      }
    }

    /** link_update(): the symlink stays exactly if the device adds itself or another claimant is found. */
    method LinkUpdate(id: Id, priority: int, slink: Link, add: bool, found: Id -> bool)
      requires Finds(found)
      modifies this`claims, this`symlinks
      ensures OnlyLink(slink, old(claims), old(symlinks), claims, symlinks)
      ensures ClaimsOn(claims, slink) == ClaimsOn(old(claims), slink) - {id} + if add then {id} else {}
      ensures Points(symlinks, slink, ClaimsOn(claims, slink), absent, WithPriority(db, id, priority), nodeOf)
      ensures slink in symlinks <==> add || ClaimantFound(claims, slink, found)
    {
      if !add && id in ClaimsOn(claims, slink) {
        // rmdir() removes the directory when it is empty
        var rest := ClaimsOn(claims, slink) - {id};
        claims := if rest == {} then claims - {slink} else claims[slink := rest];
      }
      ghost var others := ClaimsOn(claims, slink) - {id};
      var target := FindPrioritized(id, priority, add, ClaimsOn(claims, slink), found);
      if target == NoTarget {
        symlinks := symlinks - {slink};
      } else {
        symlinks := symlinks[slink := target.node];
      }
      if add {
        claims := claims[slink := ClaimsOn(claims, slink) + {id}];
      }
      assert ClaimsOn(claims, slink) == others + if add then {id} else {};
    }

    /** One link given up, or renewed, on the way from the record in db0 to a new one. */
    method LinkStep(id: Id, priority: int, slink: Link, add: bool, found: Id -> bool, ghost db0: Database,
                    ghost gone: set<Link>, ghost done: set<Link>)
      requires Finds(found)
      requires forall l {:trigger Stage(l, claims, symlinks, absent, db0, nodeOf, id, priority, gone, done)} ::
                 Stage(l, claims, symlinks, absent, db0, nodeOf, id, priority, gone, done)
      requires forall o :: o != id ==> RecordOf(db, o) == RecordOf(db0, o)
      requires slink !in gone && slink !in done
      modifies this`claims, this`symlinks
      ensures OnlyLink(slink, old(claims), old(symlinks), claims, symlinks)
      ensures slink in symlinks <==> add || ClaimantFound(claims, slink, found)
      ensures var gone', done' := if add then gone else gone + {slink}, if add then done + {slink} else done;
              forall l {:trigger Stage(l, claims, symlinks, absent, db0, nodeOf, id, priority, gone', done')} ::
                Stage(l, claims, symlinks, absent, db0, nodeOf, id, priority, gone', done')
    {
      ghost var gone', done' := if add then gone else gone + {slink}, if add then done + {slink} else done;
      ghost var claims0, symlinks0 := claims, symlinks;
      LinkUpdate(id, priority, slink, add, found);
      forall l
        ensures Stage(l, claims, symlinks, absent, db0, nodeOf, id, priority, gone', done')
      {
        assert Stage(l, claims0, symlinks0, absent, db0, nodeOf, id, priority, gone, done);
        if l != slink {
          assert ClaimsOn(claims, l) == ClaimsOn(claims0, l);
          assert Pending(db0, l, id, gone', done') == Pending(db0, l, id, gone, done);
          PointsKept(symlinks0, symlinks, l, Pending(db0, l, id, gone, done), absent,
                     if l in done then WithPriority(db0, id, priority) else db0, nodeOf);
        } else {
          assert ClaimsOn(claims, l) == Pending(db0, l, id, gone', done');
          SamePriorities(db, db0, id, priority, ClaimsOn(claims, l), add);
          PointsSame(symlinks, l, ClaimsOn(claims, l), absent, absent, WithPriority(db, id, priority),
                     if add then WithPriority(db0, id, priority) else db0, nodeOf);
        }
      }
    }

    ghost predicate Staged(db0: Database, id: Id, priority: int, gone: set<Link>, done: set<Link>)
      reads this`claims, this`symlinks, this`absent
    {
      forall l {:trigger Stage(l, claims, symlinks, absent, db0, nodeOf, id, priority, gone, done)} ::
        Stage(l, claims, symlinks, absent, db0, nodeOf, id, priority, gone, done)
    }

    /** udev_node_update_old_links(), and with nothing kept the loop of udev_node_remove(). */
    method GiveUpLinks(id: Id, priority: int, links: set<Link>, kept: set<Link>, found: Id -> bool, ghost db0: Database)
      requires Finds(found) && Staged(db0, id, priority, {}, {})
      requires forall o :: o != id ==> RecordOf(db, o) == RecordOf(db0, o)
      modifies this`claims, this`symlinks
      ensures Staged(db0, id, priority, links - kept, {})
      ensures forall l :: l in links - kept ==> (l in symlinks <==> ClaimantFound(claims, l, found))
    {
      var left := links;
      ghost var gone: set<Link> := {};
      while left != {}
        invariant left <= links && gone == links - left - kept
        invariant Staged(db0, id, priority, gone, {})
        invariant forall l :: l in gone ==> (l in symlinks <==> ClaimantFound(claims, l, found))
        decreases left
      {
        var slink :| slink in left;
        left := left - {slink};
        if slink !in kept {
          ghost var claims0, symlinks0 := claims, symlinks;
          LinkStep(id, priority, slink, false, found, db0, gone, {});
          forall l | l in gone
            ensures l in symlinks <==> ClaimantFound(claims, l, found)
          {
            assert ClaimsOn(claims, l) == ClaimsOn(claims0, l);
          }
          gone := gone + {slink};
        }
      }
      assert gone == links - kept;
    }

    /** The links of udev_node_add(). */
    method RenewLinks(id: Id, priority: int, links: set<Link>, found: Id -> bool, ghost gone: set<Link>)
      requires Finds(found) && Staged(db, id, priority, gone, {}) && gone !! links
      modifies this`claims, this`symlinks
      ensures Staged(db, id, priority, gone, links)
      ensures AllLinked(links, symlinks)
    {
      var left := links;
      ghost var done: set<Link> := {};
      while left != {}
        invariant left <= links && done == links - left
        invariant Staged(db, id, priority, gone, done)
        invariant AllLinked(done, symlinks)
        decreases left
      {
        var slink :| slink in left;
        left := left - {slink};
        ghost var claims0, symlinks0 := claims, symlinks;
        LinkStep(id, priority, slink, true, found, db, gone, done);
        StillLinked(done, slink, claims0, symlinks0, claims, symlinks);
        done := done + {slink};
      }
      assert done == links;
    }

    /** udev_device_tag() */
    method TagFile(tag: Tag, id: Id, add: bool)
      modifies this`tagFiles
      ensures tagFiles == if add then old(tagFiles) + {(tag, id)} else old(tagFiles) - {(tag, id)}
    {
      if add {
        tagFiles := tagFiles + {(tag, id)};
      } else {
        tagFiles := tagFiles - {(tag, id)};
      }
    }

    /** udev_device_tag_index(); without an old device there are no old tags. */
    method TagIndex(id: Id, tags: set<Tag>, oldTags: set<Tag>, add: bool)
      requires !add ==> oldTags == {}
      modifies this`tagFiles
      ensures forall t, o :: (t, o) in tagFiles <==>
                if o == id && t in tags then add else (t, o) in old(tagFiles) && !(o == id && t in oldTags)
    {
      var left := oldTags;
      while left != {}
        invariant left <= oldTags
        invariant forall t, o :: (t, o) in tagFiles <==>
                    (t, o) in old(tagFiles) && !(o == id && t in oldTags - left && t !in tags)
        decreases left
      {
        var tag :| tag in left;
        left := left - {tag};
        if tag !in tags {
          TagFile(tag, id, false);
        }
      }
      left := tags;
      ghost var files := tagFiles;
      while left != {}
        invariant left <= tags
        invariant forall t, o :: (t, o) in tagFiles <==> if o == id && t in tags - left then add else (t, o) in files
        decreases left
      {
        var tag :| tag in left;
        left := left - {tag};
        TagFile(tag, id, add);
      }
    }

    /** The branch of udev_event_execute_rules() for add and change events; the rules have run. */
    method Store(dev: Device, found: Id -> bool)
      requires Coherent() && HasInfo(dev) && Finds(found)
      modifies this
      ensures Coherent() && db == Updated(old(db), dev, hasNode(dev.id)) && absent == old(absent)
      ensures hasNode(dev.id) ==> forall l :: l in dev.links ==> l in symlinks
    {
      var before := RecordOf(db, dev.id);
      ghost var db0, links := db, if hasNode(dev.id) then dev.links else {};
      ghost var gone := before.links - links;
      StartStages(dev.id, dev.priority);
      if hasNode(dev.id) {
        GiveUpLinks(dev.id, dev.priority, before.links, dev.links, found, db);
        RenewLinks(dev.id, dev.priority, dev.links, found, gone);
      } else {
        assert gone == {} && links == {};
      }
      db := Updated(db, dev, hasNode(dev.id));
      FinishStages(db0, absent, dev.id, dev.priority, gone, links);
      TagIndex(dev.id, dev.tags, before.tags, true);
    }

    /**
      The branch for remove events.  Record and tags are read and removed before the rules
      run; what is given up are the links as the rules leave them, and of the record's
      links a remove event takes none away.
      */
    method Delete(id: Id, links: set<Link>, found: Id -> bool)
      requires Coherent() && Finds(found) && RecordOf(db, id).links <= links
      modifies this
      ensures Coherent() && db == old(db) - {id} && absent == old(absent) - {id}
      ensures hasNode(id) ==> forall l :: l in links ==> (l in symlinks <==> ClaimantFound(claims, l, found))
    {
      var dev := RecordOf(db, id);
      ghost var db0, absent0, gone := db, absent, if hasNode(id) then links else {};
      StartStages(id, dev.priority);
      db := db - {id};
      TagIndex(id, dev.tags, {}, false);
      if hasNode(id) {
        GiveUpLinks(id, dev.priority, links, {}, found, db0);
      }
      assert links - {} == links;
      absent := absent - {id};
      FinishStages(db0, absent0, id, dev.priority, gone, {});
    }

    /** A device leaves the system. */
    ghost method Leave(id: Id)
      requires Coherent()
      modifies this`absent
      ensures Coherent() && absent == old(absent) + {id}
    {
      ghost var absent0 := absent;
      absent := absent + {id};
      forall l
        ensures LinkOk(l, claims, symlinks, absent, db, nodeOf)
      {
        assert LinkOk(l, claims, symlinks, absent0, db, nodeOf);
        PointsSame(symlinks, l, Claimants(db, l), absent0, absent, db, db, nodeOf);
      }
    }

    lemma StartStages(id: Id, priority: int)
      requires Coherent()
      ensures Staged(db, id, priority, {}, {})
    {
      forall l
        ensures Stage(l, claims, symlinks, absent, db, nodeOf, id, priority, {}, {})
      {
        assert LinkOk(l, claims, symlinks, absent, db, nodeOf);
        assert Pending(db, l, id, {}, {}) == Claimants(db, l);
      }
    }

    lemma FinishStages(db0: Database, absent0: set<Id>, id: Id, priority: int, gone: set<Link>, done: set<Link>)
      requires forall l {:trigger Stage(l, claims, symlinks, absent0, db0, nodeOf, id, priority, gone, done)} ::
                 Stage(l, claims, symlinks, absent0, db0, nodeOf, id, priority, gone, done)
      requires RecordOf(db0, id).links - done <= gone && gone !! done
      requires absent == absent0 || (done == {} && absent == absent0 - {id})
      requires forall o :: o != id ==> (o in db <==> o in db0) && RecordOf(db, o) == RecordOf(db0, o)
      requires RecordOf(db, id).links == done && (done != {} ==> RecordOf(db, id).priority == priority)
      ensures forall l {:trigger LinkOk(l, claims, symlinks, absent, db, nodeOf)} ::
                LinkOk(l, claims, symlinks, absent, db, nodeOf)
    {
      forall l
        ensures LinkOk(l, claims, symlinks, absent, db, nodeOf)
      {
        assert Stage(l, claims, symlinks, absent0, db0, nodeOf, id, priority, gone, done);
        StageDone(l, claims, symlinks, absent0, absent, db0, db, nodeOf, id, priority, gone, done);
      }
    }

    /** udev_event_execute_rules(), once the rules have run; on a remove event they leave the links of the record. */
    method ExecuteRules(action: Action, dev: Device, found: Id -> bool)
      requires Coherent() && HasInfo(dev) && Finds(found)
      modifies this
      ensures Coherent()
      ensures db == if action == Remove then old(db) - {dev.id} else Updated(old(db), dev, hasNode(dev.id))
      ensures absent == if action == Remove then old(absent) - {dev.id} else old(absent)
    {
      if action == Remove {
        Delete(dev.id, RecordOf(db, dev.id).links, found);
      } else {
        Store(dev, found);
      }
    }

    /** Any sequence of events, one after the other, between which devices may leave. */
    method HandleEvents(steps: seq<Step>)
      requires Coherent() && Possible(steps, |steps|, absent)
      modifies this
      ensures Coherent()
      ensures db == AfterSteps(old(db), steps, |steps|, hasNode) && absent == AbsentAfter(old(absent), steps, |steps|)
    {
      for n := 0 to |steps|
        invariant Coherent() && absent == AbsentAfter(old(absent), steps, n)
        invariant db == AfterSteps(old(db), steps, n, hasNode)
      {
        if steps[n].Event? {
          PossibleStep(steps, |steps|, old(absent), n);
        }
        match steps[n]
        case Left(id) =>
          Leave(id);
        case Event(action, dev, found) =>
          ExecuteRules(action, dev, found);
      }
    }

    /**
      What coherence means for a link none of whose claimants is absent: the symlink is
      there exactly if a record lists it, and points to one of highest priority.
      */
    lemma LinkExactly(slink: Link)
      requires Coherent() && Claimants(db, slink) !! absent
      ensures slink in symlinks <==> exists id :: id in db && slink in db[id].links
      ensures slink in symlinks ==>
                exists w :: w in db && slink in db[w].links && symlinks[slink] == nodeOf(w) &&
                            forall id :: id in db && slink in db[id].links ==> db[id].priority <= db[w].priority
    {
      var ids := Claimants(db, slink);
      assert LinkOk(slink, claims, symlinks, absent, db, nodeOf);
      PointsExactly(symlinks, slink, ids, absent, db, nodeOf);
      forall id | id in db && slink in db[id].links
        ensures id in ids
      {
      }
      if ids != {} {
        var id :| id in ids;
        assert id in db && slink in db[id].links;
        var w :| w in ids && symlinks[slink] == nodeOf(w) &&
                 forall id :: id in ids ==> RecordOf(db, id).priority <= RecordOf(db, w).priority;
        forall id | id in db && slink in db[id].links
          ensures db[id].priority <= db[w].priority
        {
          assert id in ids && RecordOf(db, id).priority <= RecordOf(db, w).priority;
        }
        assert w in db && slink in db[w].links;
      }
    }
  }

  /** Devices that have not left are found. */
  ghost predicate FindsPresent(found: Id -> bool, absent: set<Id>) {
    forall o :: o !in absent ==> found(o)
  }

  /** A device leaves, or an event is handled; found tells which devices are there then. */
  datatype Step = Left(id: Id) | Event(action: Action, dev: Device, found: Id -> bool)

  /** device_has_info(): with links, tags or a priority there is something to store. */
  ghost predicate HasInfo(dev: Device) {
    dev.links != {} || dev.tags != {} || dev.priority != 0 ==> dev.hasInfo
  }

  ghost function AfterSteps(db: Database, steps: seq<Step>, n: nat, hasNode: Id -> bool): Database
    requires n <= |steps|
  {
    if n == 0 then db
    else
      var before := AfterSteps(db, steps, n - 1, hasNode);
      match steps[n - 1]
      case Left(_) => before
      case Event(action, dev, _) =>
        if action == Remove then before - {dev.id} else Updated(before, dev, hasNode(dev.id))
  }

  ghost function AbsentAfter(absent: set<Id>, steps: seq<Step>, n: nat): set<Id>
    requires n <= |steps|
  {
    if n == 0 then absent
    else
      var before := AbsentAfter(absent, steps, n - 1);
      match steps[n - 1]
      case Left(id) => before + {id}
      case Event(action, dev, _) => if action == Remove then before - {dev.id} else before
  }

  /** Whoever has not left is found; one who left may be back, and be found too. */
  ghost predicate Possible(steps: seq<Step>, n: nat, absent: set<Id>)
    requires n <= |steps|
  {
    n > 0 ==>
      && Possible(steps, n - 1, absent)
      && (steps[n - 1].Event? ==>
            HasInfo(steps[n - 1].dev) && FindsPresent(steps[n - 1].found, AbsentAfter(absent, steps, n - 1)))
  }

  lemma {:induction false} PossibleStep(steps: seq<Step>, n: nat, absent: set<Id>, k: nat)
    requires k < n <= |steps| && Possible(steps, n, absent) && steps[k].Event?
    ensures HasInfo(steps[k].dev) && FindsPresent(steps[k].found, AbsentAfter(absent, steps, k))
    decreases n
  {
    if k < n - 1 {
      PossibleStep(steps, n - 1, absent, k);
    }
  }

  function OneLink(id: Id, slink: Link): (dev: Device)
    ensures HasInfo(dev)
  {
    Device(id, {slink}, 0, {}, true, 0)
  }

  /** Two devices that claim a link have left. */
  method BothClaim(nodeOf: Id -> Node, hasNode: Id -> bool, a: Id, b: Id, slink: Link) returns (index: DeviceIndex)
    requires a != b && hasNode(a) && hasNode(b)
    ensures fresh(index) && index.Coherent() && index.nodeOf == nodeOf && index.hasNode == hasNode
    ensures index.db == map[a := Record({slink}, 0, {}), b := Record({slink}, 0, {})] && index.absent == {a, b}
  {
    index := new DeviceIndex(nodeOf, hasNode);
    index.Store(OneLink(a, slink), (o: Id) => true);
    index.Store(OneLink(b, slink), (o: Id) => true);
    index.Leave(a);
    index.Leave(b);
  }

  /**
    Two devices claim a link and leave together.  After the first remove event the link is
    gone although the second one's claim and record remain; the second event clears these.
    */
  method BothLeave(nodeOf: Id -> Node, hasNode: Id -> bool, a: Id, b: Id, slink: Link)
    returns (index: DeviceIndex, ghost between: (bool, set<Id>, Record))
    requires a != b && hasNode(a) && hasNode(b)
    ensures between == (false, {b}, Record({slink}, 0, {}))
    ensures index.Coherent() && index.db == map[] && slink !in index.symlinks && ClaimsOn(index.claims, slink) == {}
  {
    index := BothClaim(nodeOf, hasNode, a, b, slink);
    index.Delete(a, {slink}, (o: Id) => o != a && o != b);
    assert LinkOk(slink, index.claims, index.symlinks, index.absent, index.db, nodeOf);
    assert index.db == map[b := Record({slink}, 0, {})] && ClaimsOn(index.claims, slink) == {b};
    between := (slink in index.symlinks, ClaimsOn(index.claims, slink), RecordOf(index.db, b));
    index.Delete(b, {slink}, (o: Id) => o != b);
    assert LinkOk(slink, index.claims, index.symlinks, index.absent, index.db, nodeOf);
  }
}
