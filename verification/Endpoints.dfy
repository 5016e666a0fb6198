/**
 * The endpoints as a state machine over the file on disk: read, parse, edit, print, install,
 * reload, and roll back when nginx or docker refuses. Requests are served one at a time.
 */
module Endpoints {
  import opened Wrappers
  import opened Text
  import opened Patterns
  import opened Overrides
  import opened Document
  import opened Directives
  import opened RoundTrip
  import opened Edits
  import opened QuotedMigration
  import opened Parsed

  // ---- Saving ----

  /** What the reload inside the container reports. */
  datatype Reload = Accepted | NonZeroExit | DockerError

  /** How the outside world behaves during one request; a write installs all of its content or nothing. */
  datatype World = World(readOk: bool, writeOk: bool, reload: Reload, restoreOk: bool)

  const ACL_TEXT := "geo $rate_limit"

  predicate SanityCheck(content: string) {
    Contains(content, ACL_TEXT) && Contains(content, LIMIT_RATE)
  }

  /** saveAndReload: the file afterwards, and whether nginx runs with the new content. */
  function Save(file: string, content: string, w: World): (string, bool) {
    if !SanityCheck(content) || !w.writeOk then (file, false)
    else if w.reload == Accepted then (content, true)
    else (if w.restoreOk then file else content, false)
  }

  // ---- Requests ----

  datatype Request =
    | MigrateFile
    | SetRule(ip: string, rate: string, exempt: bool)
    | ClearRule(ip: string)
    | SetGlobalRate(rate: string)
    | SaveRaw(content: string)

  /** The document an endpoint prints. */
  function EditedDoc(valid: string -> bool, d: Doc, req: Request): Result<Doc, Error> {
    match req
    case MigrateFile => Migrate(d)
    case SetRule(ip, rate, exempt) =>
      if !d.hasManaged && rate != "" then
        match Migrate(d)
        case Err(e) => Err(e)
        case Ok(m) => SetOverride(m, valid, ip, rate, exempt)
      else SetOverride(d, valid, ip, rate, exempt)
    case ClearRule(ip) => Ok(ClearOverride(d, ip))
    case SetGlobalRate(rate) =>
      var (d', e) := SetGlobal(d, rate);
      if e.Some? then Err(e.value) else Ok(d')
    case SaveRaw(content) => Ok(d)
  }

  /** The content an endpoint wants to install. */
  function Wanted(valid: string -> bool, file: string, req: Request): Result<string, Error> {
    if req.SaveRaw? then Ok(req.content)
    else
      match ParseDoc(file)
      case Err(e) => Err(e)
      case Ok(d) =>
        match EditedDoc(valid, d, req)
        case Err(e) => Err(e)
        case Ok(d') => Emit(d')
  }

  /** One request: the file afterwards, and whether the request was accepted. */
  function Step(valid: string -> bool, file: string, req: Request, w: World): (string, bool) {
    if !req.SaveRaw? && !w.readOk then (file, false)
    else
      match Wanted(valid, file, req)
      case Err(_) => (file, false)
      case Ok(content) => Save(file, content, w)
  }

  type Event = (Request, World)

  /** The file after a run of requests. */
  function FileAfter(valid: string -> bool, file: string, events: seq<Event>): string {
    if events == [] then file
    else
      var last := events[|events| - 1];
      Step(valid, FileAfter(valid, file, events[..|events| - 1]), last.0, last.1).0
  }

  /** The requests of a run that were accepted. */
  function AcceptedIn(valid: string -> bool, file: string, events: seq<Event>): seq<Request> {
    if events == [] then []
    else
      var front, last := events[..|events| - 1], events[|events| - 1];
      var before := AcceptedIn(valid, file, front);
      if Step(valid, FileAfter(valid, file, front), last.0, last.1).1 then before + [last.0] else before
  }

  // ---- The map the file stands for ----

  datatype Settings = Settings(managed: bool, rules: map<string, Rule>, global: string)

  function Restrict(m: map<string, Rule>): map<string, Rule> {
    map k | k in m && m[k] != Rule("", false) :: m[k]
  }

  function SettingsOf(d: Doc): Settings {
    Settings(d.hasManaged, Restrict(ToMap(d.overrides)), d.global)
  }

  /** A file whose text is laid out so that printing and reading agree: conditions on the text alone. */
  predicate WellFormedFile(file: string) {
    ParseDoc(file).Ok? && BlockPlaced(ParseDoc(file).value) && AroundPlaced(ParseDoc(file).value)
  }

  lemma FileIsWellFormed(file: string)
    ensures WellFormedFile(file) <==> ParseDoc(file).Ok? && WellFormed(ParseDoc(file).value)
  {
    if ParseDoc(file).Ok? { ParsedAgrees(file); }
  }

  function FileSettings(file: string): Settings
    requires ParseDoc(file).Ok?
  {
    SettingsOf(ParseDoc(file).value)
  }

  /**
   * A request that stays within what the reader can read back: an accepted address has the entry pattern's
   * characters, raw content is well formed, and the directive of an unmanaged file that is to be set is not
   * quoted earlier. Migrating needs nothing of the last kind.
   */
  predicate Admissible(valid: string -> bool, file: string, req: Request) {
    && (req.SetRule? && valid(req.ip) ==> EntryIP(req.ip))
    && (req.SaveRaw? ==> WellFormedFile(req.content))
    && (ParseDoc(file).Ok? && SetsDirective(ParseDoc(file).value, req) ==> Unquoted(ParseDoc(file).value.postManaged))
  }

  /** The request is to change the value of the user's limit_rate directive. */
  predicate SetsDirective(d: Doc, req: Request) {
    !d.hasManaged && req.SetGlobalRate?
  }

  /** Each request is admissible where it is made, and every roll-back succeeds. */
  predicate AdmissibleRun(valid: string -> bool, file: string, events: seq<Event>) {
    events == [] ||
    var front, last := events[..|events| - 1], events[|events| - 1];
    && AdmissibleRun(valid, file, front)
    && Admissible(valid, FileAfter(valid, file, front), last.0)
    && last.1.restoreOk
  }

  /** The request rewrites the user's limit_rate directive: it sets it or points it at the variable. */
  predicate EditsDirective(d: Doc, req: Request) {
    !d.hasManaged && (req.MigrateFile? || req.SetGlobalRate? || (req.SetRule? && req.rate != ""))
  }

  /** The request finds the directive it rewrites, because the directive's text is not quoted earlier. */
  predicate Effective(file: string, req: Request) {
    ParseDoc(file).Ok? && EditsDirective(ParseDoc(file).value, req) ==> Unquoted(ParseDoc(file).value.postManaged)
  }

  predicate EffectiveRun(valid: string -> bool, file: string, events: seq<Event>) {
    events == [] ||
    var front, last := events[..|events| - 1], events[|events| - 1];
    EffectiveRun(valid, file, front) && Effective(FileAfter(valid, file, front), last.0)
  }

  /** What an accepted request does to the settings. */
  function Apply(s: Settings, req: Request): Settings
    requires req.SaveRaw? ==> ParseDoc(req.content).Ok?
  {
    match req
    case MigrateFile => s.(managed := true)
    case SetRule(ip, rate, exempt) =>
      s.(managed := s.managed || rate != "",
         rules := if rate == "" && !exempt then s.rules - {ip} else s.rules[ip := Rule(rate, exempt)])
    case ClearRule(ip) => s.(rules := s.rules - {ip})
    case SetGlobalRate(rate) => s.(global := rate)
    case SaveRaw(content) => FileSettings(content)
  }

  /** Raw saves among the requests are of files that can be read. */
  predicate AllReadable(reqs: seq<Request>) {
    forall r :: r in reqs && r.SaveRaw? ==> ParseDoc(r.content).Ok?
  }

  function ApplyAll(valid: string -> bool, s: Settings, reqs: seq<Request>): Settings
    requires AllReadable(reqs)
  {
    if reqs == [] then s
    else
      assert forall r :: r in reqs[..|reqs| - 1] ==> r in reqs;
      Apply(ApplyAll(valid, s, reqs[..|reqs| - 1]), reqs[|reqs| - 1])
  }

  // ---- One step ----

  lemma CarryingIsRestriction(os: seq<Override>)
    requires Sorted(os)
    ensures ToMap(Carrying(os)) == Restrict(ToMap(os))
    ensures Restrict(ToMap(Carrying(os))) == Restrict(ToMap(os))
  {
    var r := Carrying(os);
    CarryingSorted(os);
    CarryingMembers(os);
    SortedIsUnique(os);
    SortedIsUnique(r);
    forall k, rule ensures Maps(ToMap(r), k, rule) <==> Maps(Restrict(ToMap(os)), k, rule) {
      MapOfUnique(r, k, rule);
      MapOfUnique(os, k, rule);
    }
    SameEntries(ToMap(r), Restrict(ToMap(os)));
  }

  /** A document's settings survive printing and reading back. */
  lemma SettingsSurvive(d: Doc)
    requires WellFormed(d)
    ensures Emit(d).Ok? && WellFormedFile(Emit(d).value) && FileSettings(Emit(d).value) == SettingsOf(d)
  {
    PrintThenParse(d);
    FileIsWellFormed(Emit(d).value);
    CarryingIsRestriction(d.overrides);
  }

  lemma RestrictUpdate(m: map<string, Rule>, ip: string, rule: Rule)
    ensures Restrict(m[ip := rule]) == if rule == Rule("", false) then Restrict(m) - {ip} else Restrict(m)[ip := rule]
    ensures Restrict(m - {ip}) == Restrict(m) - {ip}
  {
  }

  lemma SetRuleApplies(valid: string -> bool, d: Doc, ip: string, rate: string, exempt: bool)
    requires WellFormed(d) && SetOverride(d, valid, ip, rate, exempt).Ok?
    requires EntryIP(ip) && (rate == "" || d.hasManaged)
    ensures var d' := SetOverride(d, valid, ip, rate, exempt).value;
            WellFormed(d') && SettingsOf(d') == Apply(SettingsOf(d), SetRule(ip, rate, exempt))
  {
    hide WellFormed, SortByIP, Put, ToMap, Restrict;
    SetOverrideKeeps(d, valid, ip, rate, exempt);
    RestrictUpdate(ToMap(d.overrides), ip, Rule(rate, exempt));
  }

  /** Setting a rate on an unmanaged document migrates it first. */
  lemma MigrateThenSetApplies(valid: string -> bool, d: Doc, ip: string, rate: string, exempt: bool)
    requires WellFormed(d) && !d.hasManaged && rate != "" && EntryIP(ip)
    requires Migrate(d).Ok? && SetOverride(Migrate(d).value, valid, ip, rate, exempt).Ok?
    ensures var d' := SetOverride(Migrate(d).value, valid, ip, rate, exempt).value;
            WellFormed(d') && SettingsOf(d') == Apply(SettingsOf(d), SetRule(ip, rate, exempt))
  {
    MigrateStaysWellFormed(d);
    SetRuleApplies(valid, Migrate(d).value, ip, rate, exempt);
  }

  lemma ClearRuleApplies(d: Doc, ip: string)
    requires WellFormed(d)
    ensures WellFormed(ClearOverride(d, ip)) && SettingsOf(ClearOverride(d, ip)) == Apply(SettingsOf(d), ClearRule(ip))
  {
    ClearOverrideKeeps(d, ip);
    RestrictUpdate(ToMap(d.overrides), ip, Rule("", false));
  }

  lemma MigrateApplies(d: Doc)
    requires WellFormed(d) && Migrate(d).Ok?
    ensures WellFormed(Migrate(d).value) && SettingsOf(Migrate(d).value) == Apply(SettingsOf(d), MigrateFile)
  {
    MigrateStaysWellFormed(d);
  }

  lemma SetGlobalApplies(d: Doc, rate: string)
    requires WellFormed(d) && SetGlobal(d, rate).1.None? && (d.hasManaged || Unquoted(d.postManaged))
    ensures var d' := SetGlobal(d, rate).0;
            WellFormed(d') && SettingsOf(d') == Apply(SettingsOf(d), SetGlobalRate(rate))
  {
    hide WellFormed, SetGlobal;
    SetGlobalKeeps(d, rate);
  }

  /** An edit that succeeds applies its request to the settings and keeps the document well formed. */
  lemma EditApplies(valid: string -> bool, d: Doc, req: Request)
    requires WellFormed(d) && !req.SaveRaw? && (req.SetRule? && valid(req.ip) ==> EntryIP(req.ip))
    requires SetsDirective(d, req) ==> Unquoted(d.postManaged)
    requires EditedDoc(valid, d, req).Ok?
    ensures var d' := EditedDoc(valid, d, req).value;
            WellFormed(d') && SettingsOf(d') == Apply(SettingsOf(d), req)
  {
    match req
    case MigrateFile =>
      MigrateApplies(d);
    case SetRule(ip, rate, exempt) =>
      if !d.hasManaged && rate != "" {
        MigrateThenSetApplies(valid, d, ip, rate, exempt);
      } else {
        SetRuleApplies(valid, d, ip, rate, exempt);
      }
    case ClearRule(ip) =>
      ClearRuleApplies(d, ip);
    case SetGlobalRate(rate) =>
      SetGlobalApplies(d, rate);
  }

  /** What an endpoint wants to install is well formed and says what the request asked for. */
  lemma WantedApplies(valid: string -> bool, file: string, req: Request)
    requires WellFormedFile(file) && Admissible(valid, file, req) && Wanted(valid, file, req).Ok?
    ensures var content := Wanted(valid, file, req).value;
            WellFormedFile(content) && FileSettings(content) == Apply(FileSettings(file), req)
  {
    hide ParseDoc, Emit, EditedDoc, WellFormed, BlockPlaced, AroundPlaced, SettingsOf, Unquoted;
    if !req.SaveRaw? {
      var d := ParseDoc(file).value;
      FileIsWellFormed(file);
      EditApplies(valid, d, req);
      SettingsSurvive(EditedDoc(valid, d, req).value);
    }
  }

  lemma SaveOutcome(file: string, content: string, w: World)
    requires w.restoreOk
    ensures Save(file, content, w) == (content, true) || Save(file, content, w) == (file, false)
  {
  }

  /** One request: accepted, it is applied to the settings; refused, it leaves no trace. */
  lemma StepRefines(valid: string -> bool, file: string, req: Request, w: World)
    requires WellFormedFile(file) && Admissible(valid, file, req) && w.restoreOk
    ensures var (file', accepted) := Step(valid, file, req, w);
            && WellFormedFile(file')
            && if accepted then FileSettings(file') == Apply(FileSettings(file), req) else file' == file
  {
    if Wanted(valid, file, req).Ok? {
      WantedApplies(valid, file, req);
      SaveOutcome(file, Wanted(valid, file, req).value, w);
    }
  }

  // ---- Runs ----

  /**
   * Over every run of requests and every behaviour of nginx and docker, as long as rollbacks succeed,
   * what the file says is the plain map and global rate after exactly the accepted requests.
   */
  lemma {:induction false} RunRefinesMap(valid: string -> bool, file: string, events: seq<Event>)
    requires WellFormedFile(file) && AdmissibleRun(valid, file, events)
    ensures WellFormedFile(FileAfter(valid, file, events))
    ensures AllReadable(AcceptedIn(valid, file, events))
    ensures FileSettings(FileAfter(valid, file, events)) ==
            ApplyAll(valid, FileSettings(file), AcceptedIn(valid, file, events))
  {
    hide WellFormed, BlockPlaced, AroundPlaced, Step, SettingsOf, Apply, ParseDoc, Unquoted, SetsDirective;
    if events != [] {
      var front, last := events[..|events| - 1], events[|events| - 1];
      RunRefinesMap(valid, file, front);
      StepRefines(valid, FileAfter(valid, file, front), last.0, last.1);
      var before := AcceptedIn(valid, file, front);
      assert (before + [last.0])[..|before|] == before;
    }
  }

  /** A well-formed file is only ever refused for a reason its user can see. */
  predicate Editable(valid: string -> bool, d: Doc, req: Request) {
    var directive := FindLimitRate(d.postManaged);
    var migratable := d.hasManaged || (directive.Some? && directive.value.parts[3] != EFFECTIVE_RATE_VAR);
    match req
    case MigrateFile => migratable
    case SetRule(ip, rate, _) => valid(ip) && (rate == "" || (ValidRate(rate) && migratable))
    case ClearRule(_) => true
    case SetGlobalRate(rate) => ValidRate(rate) && rate != "0" && (d.hasManaged || directive.Some?)
    case SaveRaw(_) => true
  }

  lemma EditSucceedsIff(valid: string -> bool, d: Doc, req: Request)
    requires !req.SaveRaw?
    ensures EditedDoc(valid, d, req).Ok? <==> Editable(valid, d, req)
  {
  }

  /** The edit needs a directive the file does not have: a literal one to migrate, any one to set. */
  predicate LacksDirective(d: Doc, req: Request) {
    var directive := FindLimitRate(d.postManaged);
    var literal := directive.Some? && directive.value.parts[3] != EFFECTIVE_RATE_VAR;
    !d.hasManaged &&
    match req
    case MigrateFile => !literal
    case SetRule(_, rate, _) => rate != "" && !literal
    case SetGlobalRate(rate) => ValidRate(rate) && rate != "0" && directive.None?
    case _ => false
  }

  /** The value the request wants to set is not a rate. */
  predicate BadRate(req: Request) {
    match req
    case SetRule(_, rate, _) => rate != "" && !ValidRate(rate)
    case SetGlobalRate(rate) => !ValidRate(rate) || rate == "0"
    case _ => false
  }

  /** Why an edit is refused: for want of a directive before all else, then for its address, then for its rate. */
  lemma RefusedFor(valid: string -> bool, file: string, req: Request)
    requires WellFormedFile(file) && Admissible(valid, file, req) && !req.SaveRaw?
    ensures var d, r := ParseDoc(file).value, Wanted(valid, file, req);
            && (r == Err(NoLimitRate) <==> LacksDirective(d, req))
            && (r == Err(InvalidIP) <==> !LacksDirective(d, req) && req.SetRule? && !valid(req.ip))
            && (r == Err(InvalidRate) <==> !LacksDirective(d, req) && (req.SetRule? ==> valid(req.ip)) && BadRate(req))
  {
    hide BlockPlaced, AroundPlaced, WellFormed, ParseDoc, Emit, Unquoted, ValidRate, FindLimitRate;
    WantedIff(valid, file, req);
    EditErrors(valid, ParseDoc(file).value, req);
  }

  lemma EditErrors(valid: string -> bool, d: Doc, req: Request)
    ensures var r := EditedDoc(valid, d, req);
            && (r == Err(NoLimitRate) <==> LacksDirective(d, req))
            && (r == Err(InvalidIP) <==> !LacksDirective(d, req) && req.SetRule? && !valid(req.ip))
            && (r == Err(InvalidRate) <==> !LacksDirective(d, req) && (req.SetRule? ==> valid(req.ip)) && BadRate(req))
  {
    hide ValidRate, FindLimitRate;
  }

  lemma WantedIff(valid: string -> bool, file: string, req: Request)
    requires WellFormedFile(file) && Admissible(valid, file, req)
    ensures Wanted(valid, file, req).Ok? <==> Editable(valid, ParseDoc(file).value, req)
  {
    hide WellFormedFile, WellFormed, ParseDoc, Emit, Unquoted;
    FileIsWellFormed(file);
    var d := ParseDoc(file).value;
    if !req.SaveRaw? {
      EditSucceedsIff(valid, d, req);
      if EditedDoc(valid, d, req).Ok? {
        EditApplies(valid, d, req);
        SettingsSurvive(EditedDoc(valid, d, req).value);
      }
    }
  }

  // ---- The file is always the last content nginx accepted ----

  /** nginx was reloaded with what the request wants to install, and the reload returned OK. */
  predicate Loads(valid: string -> bool, file: string, e: Event) {
    && (e.0.SaveRaw? || e.1.readOk)
    && Wanted(valid, file, e.0).Ok? && SanityCheck(Wanted(valid, file, e.0).value)
    && e.1.writeOk && e.1.reload == Accepted
  }

  /** The events of a run whose reload returned OK. */
  function Loaded(valid: string -> bool, file: string, events: seq<Event>): seq<Event> {
    if events == [] then []
    else
      var front, last := events[..|events| - 1], events[|events| - 1];
      var before := Loaded(valid, file, front);
      if Loads(valid, FileAfter(valid, file, front), last) then before + [last] else before
  }

  function Requests(events: seq<Event>): seq<Request> {
    if events == [] then [] else Requests(events[..|events| - 1]) + [events[|events| - 1].0]
  }

  lemma LoadsIsAccepted(valid: string -> bool, file: string, e: Event)
    requires e.1.restoreOk
    ensures Step(valid, file, e.0, e.1).1 == Loads(valid, file, e)
    ensures Step(valid, file, e.0, e.1).0 == if Loads(valid, file, e) then Wanted(valid, file, e.0).value else file
  {
    hide SanityCheck, Wanted;
  }

  /** The content of an event that loads is sane. */
  lemma LoadedIsSane(valid: string -> bool, file: string, e: Event)
    requires Loads(valid, file, e)
    ensures Wanted(valid, file, e.0).Ok? && SanityCheck(Wanted(valid, file, e.0).value)
  {
  }

  lemma LastOf<T>(s: seq<T>, x: T)
    ensures (s + [x])[..|s + [x]| - 1] == s && (s + [x])[|s + [x]| - 1] == x && s + [x] != []
  {
  }

  /**
   * For arbitrary contents: a run ends like the run of the events whose reload returned OK alone, and these are
   * the accepted ones; everything else leaves no trace. The file is the content the last of them installed, or
   * the initial one, and it keeps passing the sanity check if it did at first.
   */
  lemma {:induction false} FileIsLastAccepted(valid: string -> bool, file: string, events: seq<Event>)
    requires forall e :: e in events ==> e.1.restoreOk
    ensures var t, file' := Loaded(valid, file, events), FileAfter(valid, file, events);
            && FileAfter(valid, file, t) == file' && Loaded(valid, file, t) == t
            && Requests(t) == AcceptedIn(valid, file, events) == AcceptedIn(valid, file, t)
            && (t == [] ==> file' == file)
            && (t != [] ==> SanityCheck(file') &&
                            Wanted(valid, FileAfter(valid, file, t[..|t| - 1]), t[|t| - 1].0) == Ok(file'))
            && (SanityCheck(file) ==> SanityCheck(file'))
  {
    hide SanityCheck, Wanted, Loads, Step;
    if events != [] {
      var front, last := events[..|events| - 1], events[|events| - 1];
      assert last in events && forall e :: e in front ==> e in events;
      FileIsLastAccepted(valid, file, front);
      var f := FileAfter(valid, file, front);
      LoadsIsAccepted(valid, f, last);
      LastOf(Loaded(valid, file, front), last);
      if Loads(valid, f, last) { LoadedIsSane(valid, f, last); }
    }
  }
}
