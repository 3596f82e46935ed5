/**
  What rules mean, rule by rule: a rule's assignments are carried out when all its
  matches pass; GOTO continues at the next rule of the file with that label.

  Programs, attribute and property access, format substitution and name lookups are
  functions of the event; what they may change is its `world`.
  */
module RuleSemantics {
  import opened CStrings
  import opened RuleTokens
  import opened RuleLayout

  /** Everything about the device and the system that keys other than those below see or change. */
  type World(!new)

  const SLASH: Char := 47
  const SPACE: Char := 32

  datatype Escape = EscapeUnset | EscapeNone | EscapeReplace
  datatype Parent = NoParent | Parent(index: nat)
  datatype Test = Test(pass: bool, world: World)
  datatype Parsed = NotOctal | Octal(mode: nat)

  /** An owner, group, mode or watch flag: its value, whether it was set, whether it can still be. */
  datatype Setting = Setting(value: int, isSet: bool, isFinal: bool)

  datatype Event = Event(
    owner: Setting, group: Setting, mode: Setting, watch: Setting,
    name: CStr, nameFinal: bool, devlinks: set<CStr>, devlinkFinal: bool,
    devParent: Parent, world: World)

  /**
    The event's surroundings: whether names may be set, the device's major number and
    kernel node, the number of devices from this one up to the last parent, and the
    functions that tests and assignments use.  A parent test sees the first key of its
    sequence beside its own.  Characters are replaced but for those of a given list.
    */
  datatype Env = Env(
    canSetName: bool, devMajor: nat, devnode: CStr, devices: nat,
    matches: (Key, Escape, Event) -> Test,
    parentMatches: (Key, Key, nat, Event) -> bool,
    format: (CStr, Event) -> CStr,
    user: CStr -> int, group: CStr -> int, octal: CStr -> Parsed,
    replaced: (CStr, CStr) -> CStr, words: CStr -> set<CStr>,
    other: (Key, Escape, Event) -> World)

  // ---- assignments ----

  predicate IsFinal(key: Key) {
    key.op == OpAssignFinal
  }

  function NewOwner(key: Key, ev: Event, env: Env): Setting {
    if ev.owner.isFinal then ev.owner
    else if key.ty == TK_A_OWNER_ID then Setting(key.num, true, IsFinal(key))
    else
      var ev1 := ev.(owner := ev.owner.(isFinal := IsFinal(key)));
      Setting(env.user(env.format(key.value, ev1)), true, IsFinal(key))
  }

  function NewGroup(key: Key, ev: Event, env: Env): Setting {
    if ev.group.isFinal then ev.group
    else if key.ty == TK_A_GROUP_ID then Setting(key.num, true, IsFinal(key))
    else
      var ev1 := ev.(group := ev.group.(isFinal := IsFinal(key)));
      Setting(env.group(env.format(key.value, ev1)), true, IsFinal(key))
  }

  /** A MODE that is no octal number is ignored, and is not final either. */
  function NewMode(key: Key, ev: Event, env: Env): Setting {
    if ev.mode.isFinal then ev.mode
    else if key.ty == TK_A_MODE_ID then Setting(key.num, true, IsFinal(key))
    else
      match env.octal(env.format(key.value, ev))
      case NotOctal => ev.mode
      case Octal(mode) => Setting(mode, true, IsFinal(key))
  }

  /** NAME: a kernel device node keeps its name, though the assignment may be final. */
  function NewName(key: Key, esc: Escape, ev: Event, env: Env): CStr {
    var formatted := env.format(key.value, ev.(nameFinal := IsFinal(key)));
    var name := if esc == EscapeNone then formatted else env.replaced(formatted, [SLASH]);
    if env.devMajor > 0 && name != env.devnode then ev.name else name
  }

  /** SYMLINK: a list of names, added to or in place of those there are. */
  function NewLinks(key: Key, esc: Escape, ev: Event, env: Env): set<CStr> {
    var links := if key.op == OpAssign || key.op == OpAssignFinal then {} else ev.devlinks;
    var formatted := env.format(key.value, ev.(devlinkFinal := IsFinal(key), devlinks := links));
    var names := match esc
                 case EscapeUnset => env.replaced(formatted, [SLASH, SPACE])
                 case EscapeReplace => env.replaced(formatted, [SLASH])
                 case EscapeNone => formatted;
    links + env.words(names)
  }

  /** An assignment, GOTO and string_escape aside. */
  function Assign(key: Key, esc: Escape, ev: Event, env: Env): Event {
    if key.ty == TK_A_OWNER || key.ty == TK_A_OWNER_ID then ev.(owner := NewOwner(key, ev, env))
    else if key.ty == TK_A_GROUP || key.ty == TK_A_GROUP_ID then ev.(group := NewGroup(key, ev, env))
    else if key.ty == TK_A_MODE || key.ty == TK_A_MODE_ID then ev.(mode := NewMode(key, ev, env))
    else if key.ty == TK_A_INOTIFY_WATCH then
      if ev.watch.isFinal then ev else ev.(watch := Setting(key.num, true, IsFinal(key)))
    else if key.ty == TK_A_NAME then
      if ev.nameFinal then ev else ev.(name := NewName(key, esc, ev, env), nameFinal := IsFinal(key))
    else if key.ty == TK_A_DEVLINK then
      if ev.devlinkFinal || env.devMajor == 0 then ev
      else ev.(devlinks := NewLinks(key, esc, ev, env), devlinkFinal := IsFinal(key))
    else ev.(world := env.other(key, esc, ev))
  }

  // ---- matches ----

  datatype Verdict = Verdict(pass: bool, ev: Event)

  /** The end of the sequence of parent matches. */
  function ParentsEnd(keys: seq<Key>, k: nat): (n: nat)
    requires k <= |keys|
    ensures k <= n <= |keys|
    decreases |keys| - k
  {
    if k < |keys| && IsParents(keys[k].ty) then ParentsEnd(keys, k + 1) else k
  }

  /** One device passes all matches of the sequence from k to n. */
  predicate ParentPasses(keys: seq<Key>, k: nat, n: nat, device: nat, ev: Event, env: Env)
    requires k <= n <= |keys|
  {
    forall i :: k <= i < n ==> env.parentMatches(keys[k], keys[i], device, ev.(devParent := Parent(device)))
  }

  /** The first device, going up from this one, that does; or the number of devices. */
  function FirstParent(keys: seq<Key>, k: nat, n: nat, device: nat, ev: Event, env: Env): (found: nat)
    requires k <= n <= |keys| && device <= env.devices
    ensures device <= found <= env.devices
    decreases env.devices - device
  {
    if device == env.devices || ParentPasses(keys, k, n, device, ev, env) then device
    else FirstParent(keys, k, n, device + 1, ev, env)
  }

  /** All matches from k on, in order; the parent matches as one. */
  function Passes(keys: seq<Key>, k: nat, ev: Event, env: Env): Verdict
    requires k <= |keys|
    decreases |keys| - k
  {
    if k == |keys| || !IsMatch(keys[k].ty) then Verdict(true, ev)
    else if IsParents(keys[k].ty) then
      var n := ParentsEnd(keys, k);
      var device := FirstParent(keys, k, n, 0, ev, env);
      if device < env.devices then Passes(keys, n, ev.(devParent := Parent(device)), env)
      else Verdict(false, ev.(devParent := NoParent))
    else
      var test := env.matches(keys[k], EscapeUnset, ev);
      if test.pass then Passes(keys, k + 1, ev.(world := test.world), env)
      else Verdict(false, ev.(world := test.world))
  }

  function MatchCount(keys: seq<Key>, k: nat): (m: nat)
    requires k <= |keys|
    ensures k <= m <= |keys|
    decreases |keys| - k
  {
    if k < |keys| && IsMatch(keys[k].ty) then MatchCount(keys, k + 1) else k
  }

  // ---- rules ----

  /** Where to go on, and with what. */
  datatype Outcome = Outcome(next: nat, ev: Event)

  /** The assignments from k on. */
  function Act(rules: seq<Rule>, r: nat, keys: seq<Key>, k: nat, esc: Escape, ev: Event, env: Env): (o: Outcome)
    requires r < |rules| && k <= |keys|
    ensures r < o.next <= |rules|
    decreases |keys| - k
  {
    if k == |keys| then Outcome(r + 1, ev)
    else if keys[k].ty == TK_A_GOTO then
      var m := FirstLabel(rules, r + 1, rules[r].file, keys[k].value);
      if m < |rules| then Outcome(m, ev) else Act(rules, r, keys, k + 1, esc, ev, env)
    else if keys[k].ty == TK_A_STRING_ESCAPE_NONE then Act(rules, r, keys, k + 1, EscapeNone, ev, env)
    else if keys[k].ty == TK_A_STRING_ESCAPE_REPLACE then Act(rules, r, keys, k + 1, EscapeReplace, ev, env)
    else Act(rules, r, keys, k + 1, esc, Assign(keys[k], esc, ev, env), env)
  }

  /** One rule: its assignments when all its matches pass, nothing of it when it may not set names. */
  function RunRule(rules: seq<Rule>, r: nat, ev: Event, env: Env): (o: Outcome)
    requires r < |rules|
    ensures r < o.next <= |rules|
  {
    var keys := Sorted(rules[r].keys);
    if !env.canSetName && rules[r].canSetName then Outcome(r + 1, ev)
    else
      var verdict := Passes(keys, 0, ev, env);
      if verdict.pass then Act(rules, r, keys, MatchCount(keys, 0), EscapeUnset, verdict.ev, env)
      else Outcome(r + 1, verdict.ev)
  }

  /** All rules from the r-th on. */
  function Run(rules: seq<Rule>, r: nat, ev: Event, env: Env): Event
    requires r <= |rules|
    decreases |rules| - r
  {
    if r == |rules| then ev
    else
      var o := RunRule(rules, r, ev, env);
      Run(rules, o.next, o.ev, env)
  }
}
