/**
  Validation of a whole recording. Storage, keys and signatures are abstract: a
  container opens or it does not, and an opened one has a table of expected sums
  and the sums of the files that can be read.
 */
module Validation {
  import opened Bytes
  import opened Options

  datatype Container = Container(
    id: string, sums: map<string, ByteString>, actual: map<string, ByteString>, closes: bool)

  datatype Channel = Channel(container: Container)

  /** `listed` are the names in the meta file, `channels` the subcontainers that open, by name. */
  datatype Connection = Connection(container: Container, listed: set<string>, channels: map<string, Channel>)

  datatype Session = Session(container: Container, listed: set<string>, connections: map<string, Connection>)

  // ----- names

  const CONNECTION := ".connection"
  const CHANNEL := ".channel"

  predicate OccursAt(s: string, t: string, i: int) {
    0 <= i && i + |t| <= |s| && s[i..i + |t|] == t
  }

  /** The last place where `t` occurs in `s` at or before `i`, or -1. */
  function LastIndexFrom(s: string, t: string, i: int): (r: int)
    requires -1 <= i
    ensures -1 <= r <= i && (r >= 0 ==> OccursAt(s, t, r))
    ensures forall k :: r < k <= i ==> !OccursAt(s, t, k)
    decreases i
  {
    if i == -1 || OccursAt(s, t, i) then i else LastIndexFrom(s, t, i - 1)
  }

  /** The key under a listed name: what stands before the last occurrence of the suffix. */
  function KeyOf(name: string, suffix: string): Option<string> {
    var i := LastIndexFrom(name, suffix, |name|);
    if i == -1 then None else Some(name[..i])
  }

  function OpenConnection(s: Session, key: string): Option<Connection> {
    var name := key + CONNECTION;
    if key == "" || name !in s.listed || name !in s.connections then None else Some(s.connections[name])
  }

  function OpenChannel(c: Connection, key: string): Option<Channel> {
    var name := key + CHANNEL;
    if key == "" || name !in c.listed || name !in c.channels then None else Some(c.channels[name])
  }

  /** What a listed name leads to. */
  function ConnectionOf(s: Session, name: string): Option<Connection> {
    var key :- KeyOf(name, CONNECTION);
    OpenConnection(s, key)
  }

  function ChannelOf(c: Connection, name: string): Option<Channel> {
    var key :- KeyOf(name, CHANNEL);
    OpenChannel(c, key)
  }

  // ----- what validation is meant to find out

  predicate FileIntact(c: Container, f: string)
    requires f in c.sums
  {
    f in c.actual && c.actual[f] == c.sums[f]
  }

  ghost predicate ContainerIntact(c: Container) {
    c.sums != map[] && forall f :: f in c.sums ==> FileIntact(c, f)
  }

  ghost predicate ChannelIntact(c: Connection, name: string) {
    ChannelOf(c, name).Some? && ContainerIntact(ChannelOf(c, name).value.container)
  }

  ghost predicate ContentsIntact(c: Connection) {
    ContainerIntact(c.container) && forall name :: name in c.listed ==> ChannelIntact(c, name)
  }

  ghost predicate ConnectionIntact(s: Session, name: string) {
    ConnectionOf(s, name).Some? && ContentsIntact(ConnectionOf(s, name).value)
  }

  ghost predicate SessionIntact(s: Session) {
    ContainerIntact(s.container) && forall name :: name in s.listed ==> ConnectionIntact(s, name)
  }

  /** A run in which no channel name is malformed and every channel opens. */
  ghost predicate ChannelsOpen(s: Session) {
    forall name, ch :: name in s.listed && ConnectionOf(s, name).Some? && ch in ConnectionOf(s, name).value.listed ==>
      ChannelOf(ConnectionOf(s, name).value, ch).Some?
  }

  // ----- the procedure

  class Verdict {
    var valid: bool

    constructor ()
      ensures valid
    {
      valid := true;
    }
  }

  class Report {
    const name: string
    var failed: bool
    var checks: map<string, bool>
    var sub: seq<Report>

    constructor (name: string, failed: bool, checks: map<string, bool>)
      ensures this.name == name && this.failed == failed && this.checks == checks && sub == []
    {
      this.name, this.failed, this.checks, sub := name, failed, checks, [];
    }
  }

  // ----- what a report says

  ghost function Checks(c: Container): map<string, bool> {
    map f | f in c.sums :: FileIntact(c, f)
  }

  /**
    A report on an opened container: a verdict on every file of its table, and an
    error for an empty table or, if it counts, a failed close.
   */
  ghost predicate ReportsOn(r: Report, c: Container, closing: bool)
    reads r
  {
    r.name == c.id && r.checks == Checks(c) && (r.failed <==> c.sums == map[] || (closing && !c.closes))
  }

  /** A report on a name that leads nowhere. */
  ghost predicate ReportsUnopened(r: Report, name: string)
    reads r
  {
    r.name == name && r.failed && r.checks == map[] && r.sub == []
  }

  /** `order` lists the names once each. */
  ghost predicate Enumerates(order: seq<string>, names: set<string>) {
    && (forall i, j :: 0 <= i < j < |order| ==> order[i] != order[j])
    && names == set name | name in order
  }

  ghost predicate ReportsChannel(r: Report, c: Connection, name: string)
    reads r
  {
    ChannelOf(c, name).Some? && ReportsOn(r, ChannelOf(c, name).value.container, true) && r.sub == []
  }

  ghost predicate ReportsChannels(rs: seq<Report>, c: Connection, order: seq<string>)
    reads rs
  {
    |rs| == |order| && forall i :: 0 <= i < |rs| ==> ReportsChannel(rs[i], c, order[i])
  }

  /** The report on a listed connection: one report for each of its channels, in some order. */
  ghost predicate ReportsConnection(r: Report, s: Session, name: string)
    reads r, r.sub
  {
    match ConnectionOf(s, name)
    case None => ReportsUnopened(r, name)
    case Some(c) =>
      && ReportsOn(r, c.container, true)
      && exists order :: Enumerates(order, c.listed) && ReportsChannels(r.sub, c, order)
  }

  lemma EnumeratesMore(order: seq<string>, names: set<string>, name: string)
    requires Enumerates(order, names) && name !in names
    ensures Enumerates(order + [name], names + {name})
  {
    var order' := order + [name];
    forall i, j | 0 <= i < j < |order'| ensures order'[i] != order'[j] {
      assert order'[i] == order[i] && order[i] in order;
    }
  }

  /** A report is not among those it lists, nor among theirs. */
  ghost predicate Apart(r: Report)
    reads r, r.sub
  {
    r !in r.sub && forall q :: q in r.sub ==> r !in q.sub
  }

  // ----- the procedure, step by step

  /** One verdict per file of the table, or an error for an empty table. */
  method ValidateChecksums(c: Container) returns (checks: Option<map<string, bool>>)
    ensures checks.None? <==> c.sums == map[]
    ensures checks.Some? ==>
      && checks.value.Keys == c.sums.Keys
      && forall f :: f in c.sums ==> (checks.value[f] <==> f in c.actual && c.actual[f] == c.sums[f])
  {
    if |c.sums| == 0 {
      return None;
    }
    var done: map<string, bool> := map[];
    var todo := c.sums.Keys;
    while todo != {}
      invariant todo <= c.sums.Keys && done.Keys == c.sums.Keys - todo
      invariant forall f :: f in done ==> f in c.sums && done[f] == FileIntact(c, f)
    {
      var f :| f in todo;
      done := done[f := f in c.actual && c.sums[f] == c.actual[f]];
      todo := todo - {f};
    }
    return Some(done);
  }

  /** The files that failed. */
  method GetFailedItems(checks: map<string, bool>) returns (failed: set<string>)
    ensures failed == set f | f in checks && !checks[f]
  {
    failed := {};
    var todo := checks.Keys;
    while todo != {}
      invariant todo <= checks.Keys && failed == set f | f in checks && f !in todo && !checks[f]
    {
      var f :| f in todo;
      if !checks[f] {
        failed := failed + {f};
      }
      todo := todo - {f};
    }
  }

  method ValidateContainer(v: Verdict, c: Container) returns (r: Report)
    modifies v
    ensures v.valid <==> old(v.valid) && ContainerIntact(c)
    ensures v.valid <==>
      old(v.valid) && c.sums != map[] && forall f :: f in c.sums ==> f in c.actual && c.actual[f] == c.sums[f]
    ensures r.name == c.id && r.checks.Keys == c.sums.Keys && (r.failed <==> c.sums == map[])
    ensures forall f :: f in c.sums ==> (r.checks[f] <==> f in c.actual && c.actual[f] == c.sums[f])
    ensures fresh(r) && ReportsOn(r, c, false) && r.sub == []
  {
    var checks := ValidateChecksums(c);
    if checks.None? {
      v.valid := false;
      r := new Report(c.id, true, map[]);
      return;
    }
    r := new Report(c.id, false, checks.value);
    var failed := GetFailedItems(checks.value);
    if |failed| > 0 {
      var f :| f in failed;
      assert !FileIntact(c, f);
      v.valid := false;
    } else {
      assert failed == {};
      forall f | f in c.sums ensures FileIntact(c, f) {
        assert f in checks.value && f !in failed;
      }
    }
  }

  /**
    A channel that cannot be reached is reported in the session's list, which then
    starts over from the connection's.
   */
  method ValidateChannel(v: Verdict, c: Connection, name: string, connection: Report, session: Report)
    requires connection != session
    modifies v, connection`sub, session`sub
    ensures v.valid <==> old(v.valid) && ChannelIntact(c, name)
    ensures ChannelOf(c, name).Some? ==>
      && session.sub == old(session.sub) && |connection.sub| == |old(connection.sub)| + 1
      && var r := connection.sub[|old(connection.sub)|];
      && connection.sub == old(connection.sub) + [r] && fresh(r) && ReportsChannel(r, c, name)
    ensures ChannelOf(c, name).None? ==>
      && connection.sub == old(connection.sub) && |session.sub| == |old(connection.sub)| + 1
      && var r := session.sub[|old(connection.sub)|];
      && session.sub == old(connection.sub) + [r] && fresh(r) && ReportsUnopened(r, name)
  {
    var key := KeyOf(name, CHANNEL);
    if key.None? {
      v.valid := false;
      var r := new Report(name, true, map[]);
      session.sub := connection.sub + [r];
      return;
    }
    var channel := OpenChannel(c, key.value);
    if channel.None? {
      v.valid := false;
      var r := new Report(name, true, map[]);
      session.sub := connection.sub + [r];
      return;
    }
    var r := ValidateContainer(v, channel.value.container);
    r.failed := r.failed || !channel.value.container.closes;
    connection.sub := connection.sub + [r];
  }

  method ValidateChannels(v: Verdict, c: Connection, connection: Report, session: Report)
    requires connection != session && connection.sub == []
    modifies v, connection`sub, session`sub
    ensures v.valid <==> old(v.valid) && forall ch :: ch in c.listed ==> ChannelIntact(c, ch)
    ensures (forall ch :: ch in c.listed ==> ChannelOf(c, ch).Some?) ==>
      && session.sub == old(session.sub) && fresh(connection.sub)
      && exists order :: Enumerates(order, c.listed) && ReportsChannels(connection.sub, c, order)
  {
    hide ContainerIntact, KeyOf, Checks, ChannelOf;
    ghost var reachable := forall ch :: ch in c.listed ==> ChannelOf(c, ch).Some?;
    ghost var order: seq<string> := [];
    var todo := c.listed;
    while todo != {}
      invariant todo <= c.listed && Enumerates(order, c.listed - todo)
      invariant v.valid <==> old(v.valid) && forall ch :: ch in c.listed - todo ==> ChannelIntact(c, ch)
      invariant reachable ==>
        session.sub == old(session.sub) && fresh(connection.sub) && ReportsChannels(connection.sub, c, order)
    {
      var ch :| ch in todo;
      ValidateChannel(v, c, ch, connection, session);
      EnumeratesMore(order, c.listed - todo, ch);
      assert c.listed - todo + {ch} == c.listed - (todo - {ch});
      order, todo := order + [ch], todo - {ch};
    }
    assert c.listed - todo == c.listed;
  }

  method ValidateConnection(v: Verdict, s: Session, name: string, session: Report)
    modifies v, session`sub
    ensures v.valid <==> old(v.valid) && ConnectionIntact(s, name)
    ensures name in s.listed && ChannelsOpen(s) ==>
      && |session.sub| == |old(session.sub)| + 1
      && var r := session.sub[|old(session.sub)|];
      && session.sub == old(session.sub) + [r] && fresh(r) && fresh(r.sub) && ReportsConnection(r, s, name)
  {
    hide ContainerIntact, ChannelIntact, KeyOf, Checks;
    var key := KeyOf(name, CONNECTION);
    if key.None? {
      v.valid := false;
      var r := new Report(name, true, map[]);
      session.sub := session.sub + [r];
      return;
    }
    var found := OpenConnection(s, key.value);
    if found.None? {
      v.valid := false;
      var r := new Report(name, true, map[]);
      session.sub := session.sub + [r];
      return;
    }
    var c := found.value;
    var r: Report := ValidateContainer(v, c.container);
    session.sub := session.sub + [r];
    assert ConnectionOf(s, name) == Some(c);
    ValidateChannels(v, c, r, session);
    r.failed := r.failed || !c.container.closes;
  }

  /**
    The verdict is true exactly when every listed connection and channel leads to a
    container that opens and every file of every opened container's table has its
    expected sum. No later success restores it, and closing does not affect it.
   */
  method Validate(s: Session) returns (v: Verdict, r: Report)
    ensures v.valid <==> SessionIntact(s)
    ensures ReportsOn(r, s.container, false)
    ensures ChannelsOpen(s) ==>
      exists order :: Enumerates(order, s.listed) && |order| == |r.sub| &&
        forall i :: 0 <= i < |order| ==> ReportsConnection(r.sub[i], s, order[i])
  {
    hide ContainerIntact, ConnectionIntact, Checks, ReportsConnection, ChannelsOpen;
    v := new Verdict();
    r := ValidateContainer(v, s.container);
    ghost var order: seq<string> := [];
    var todo := s.listed;
    while todo != {}
      invariant todo <= s.listed && Enumerates(order, s.listed - todo)
      invariant v.valid <==>
        ContainerIntact(s.container) && forall name :: name in s.listed - todo ==> ConnectionIntact(s, name)
      invariant ReportsOn(r, s.container, false)
      invariant ChannelsOpen(s) ==>
        Apart(r) && |order| == |r.sub| && forall i :: 0 <= i < |order| ==> ReportsConnection(r.sub[i], s, order[i])
      modifies v, r`sub
    {
      var name :| name in todo;
      ValidateConnection(v, s, name, r);
      EnumeratesMore(order, s.listed - todo, name);
      assert s.listed - todo + {name} == s.listed - (todo - {name});
      order, todo := order + [name], todo - {name};
    }
    assert s.listed - todo == s.listed;
  }

  // ----- listed names and the containers they stand for

  predicate EndsIn(name: string, suffix: string) {
    |suffix| <= |name| && name[|name| - |suffix|..] == suffix
  }

  /** A name made from an id gives the id back, whatever the id contains. */
  lemma KeyOfName(id: string, suffix: string)
    requires suffix != ""
    ensures KeyOf(id + suffix, suffix) == Some(id)
  {
    var name := id + suffix;
    assert name[|id|..|id| + |suffix|] == suffix;
    assert OccursAt(name, suffix, |id|);
    assert (id + suffix)[..|id|] == id;
  }

  /**
    The key of a name: none if the suffix does not occur in it, and otherwise what
    stands before its last occurrence.
   */
  lemma KeyOfIff(name: string, suffix: string, key: string)
    requires suffix != ""
    ensures KeyOf(name, suffix) == None <==> forall i :: !OccursAt(name, suffix, i)
    ensures KeyOf(name, suffix) == Some(key) <==>
      && |key| + |suffix| <= |name| && name[..|key|] == key && name[|key|..|key| + |suffix|] == suffix
      && forall i :: |key| < i ==> !OccursAt(name, suffix, i)
  {
    var r := LastIndexFrom(name, suffix, |name|);
    if r >= 0 {
      assert OccursAt(name, suffix, r);
    }
    if |key| + |suffix| <= |name| && name[|key|..|key| + |suffix|] == suffix {
      assert OccursAt(name, suffix, |key|);
    }
  }

  /** What a listed name leads to: the container under its key, if that is listed too and opens. */
  lemma LeadsTo(s: Session, c: Connection, name: string)
    ensures ConnectionOf(s, name) == (
      match KeyOf(name, ".connection")
      case None => None
      case Some(key) =>
        if key != "" && key + ".connection" in s.listed && key + ".connection" in s.connections
        then Some(s.connections[key + ".connection"]) else None)
    ensures ChannelOf(c, name) == (
      match KeyOf(name, ".channel")
      case None => None
      case Some(key) =>
        if key != "" && key + ".channel" in c.listed && key + ".channel" in c.channels
        then Some(c.channels[key + ".channel"]) else None)
  {
    hide KeyOf;
  }

  /** The container looked up is the one listed exactly for names that end in the suffix. */
  lemma LooksUpItself(name: string, suffix: string)
    requires suffix != ""
    ensures KeyOf(name, suffix).Some? && KeyOf(name, suffix).value + suffix == name <==> EndsIn(name, suffix)
  {
    if EndsIn(name, suffix) {
      var id := name[..|name| - |suffix|];
      assert id + suffix == name;
      KeyOfName(id, suffix);
    }
  }

  /** Every listed channel's own container opens and is intact. */
  ghost predicate ListedChannelsIntact(c: Connection) {
    && ContainerIntact(c.container)
    && forall name :: name in c.listed ==>
         name != CHANNEL && name in c.channels && ContainerIntact(c.channels[name].container)
  }

  /** Every listed connection's own container opens and is intact, and so are those of its channels. */
  ghost predicate ListedIntact(s: Session) {
    && ContainerIntact(s.container)
    && forall name :: name in s.listed ==>
         name != CONNECTION && name in s.connections && ListedChannelsIntact(s.connections[name])
  }

  ghost predicate WellNamed(s: Session) {
    && (forall name :: name in s.listed ==> EndsIn(name, CONNECTION))
    && forall name, ch :: name in s.listed && name in s.connections && ch in s.connections[name].listed ==>
         EndsIn(ch, CHANNEL)
  }

  lemma ChannelsOnListed(c: Connection)
    requires forall name :: name in c.listed ==> EndsIn(name, CHANNEL)
    ensures ContentsIntact(c) <==> ListedChannelsIntact(c)
  {
    forall name | name in c.listed
      ensures ChannelOf(c, name) == if name != CHANNEL && name in c.channels then Some(c.channels[name]) else None
    {
      LooksUpItself(name, CHANNEL);
    }
  }

  /** What that says of each container's files. */
  lemma ListedIntactIff(s: Session)
    ensures ListedIntact(s) <==>
      && s.container.sums != map[]
      && (forall f :: f in s.container.sums ==> f in s.container.actual && s.container.actual[f] == s.container.sums[f])
      && forall name :: name in s.listed ==>
           && name != ".connection" && name in s.connections
           && var c := s.connections[name];
           && c.container.sums != map[]
           && (forall f :: f in c.container.sums ==>
                 f in c.container.actual && c.container.actual[f] == c.container.sums[f])
           && forall ch :: ch in c.listed ==>
                && ch != ".channel" && ch in c.channels
                && var d := c.channels[ch].container;
                && d.sums != map[] && forall f :: f in d.sums ==> f in d.actual && d.actual[f] == d.sums[f]
  {
  }

  /** With well-formed names of connections and channels, the verdict is about the listed containers themselves. */
  lemma VerdictOnListed(s: Session)
    requires WellNamed(s)
    ensures SessionIntact(s) <==> ListedIntact(s)
  {
    hide ContentsIntact, ListedChannelsIntact, ContainerIntact;
    forall name | name in s.listed
      ensures ConnectionOf(s, name) ==
        if name != CONNECTION && name in s.connections then Some(s.connections[name]) else None
      ensures name in s.connections ==>
        (ContentsIntact(s.connections[name]) <==> ListedChannelsIntact(s.connections[name]))
    {
      LooksUpItself(name, CONNECTION);
      if name in s.connections {
        ChannelsOnListed(s.connections[name]);
      }
    }
  }

  lemma OccursStarts(s: string, t: string, i: nat)
    requires i < |s| && t != ""
    ensures OccursAt(s, t, i) ==> s[i] == t[0]
  {
    if OccursAt(s, t, i) {
      assert s[i..i + |t|][0] == s[i];
    }
  }

  lemma KeyOfExtended(id: string, suffix: string, tail: string)
    requires suffix in {CONNECTION, CHANNEL} && '.' !in tail
    ensures KeyOf(id + suffix + tail, suffix) == Some(id)
  {
    var name, n := id + suffix + tail, |id|;
    assert name[n..n + |suffix|] == suffix && OccursAt(name, suffix, n);
    forall k | n < k <= |name| ensures !OccursAt(name, suffix, k) {
      if k < |name| {
        OccursStarts(name, suffix, k);
        assert name[k] == if k < n + |suffix| then suffix[k - n] else tail[k - n - |suffix|];
        assert name[k] != '.';
      }
    }
    assert name[..n] == id;
  }

  /**
    Without: a name that continues past the suffix passes on the strength of another
    connection, and its own container is never opened.
   */
  lemma UnopenedConnectionPasses(id: string, tail: string, c: Connection, s: Session)
    requires id != "" && tail != "" && '.' !in tail
    requires ContentsIntact(c) && ContainerIntact(s.container)
    requires s.listed == {id + CONNECTION, id + CONNECTION + tail} && s.connections == map[id + CONNECTION := c]
    ensures SessionIntact(s) && !ListedIntact(s)
  {
    hide ContentsIntact, ContainerIntact, KeyOf, ListedChannelsIntact;
    KeyOfExtended(id, CONNECTION, "");
    KeyOfExtended(id, CONNECTION, tail);
    assert id + CONNECTION + "" == id + CONNECTION;
    assert |id + CONNECTION + tail| > |id + CONNECTION|;
  }

  /** The same of channels. */
  lemma UnopenedChannelPasses(id: string, tail: string, ch: Channel, c: Connection)
    requires id != "" && tail != "" && '.' !in tail
    requires ContainerIntact(ch.container) && ContainerIntact(c.container)
    requires c.listed == {id + CHANNEL, id + CHANNEL + tail} && c.channels == map[id + CHANNEL := ch]
    ensures ContentsIntact(c) && !ListedChannelsIntact(c)
  {
    hide ContainerIntact, KeyOf;
    KeyOfExtended(id, CHANNEL, "");
    KeyOfExtended(id, CHANNEL, tail);
    assert id + CHANNEL + "" == id + CHANNEL;
    assert |id + CHANNEL + tail| > |id + CHANNEL|;
  }
}
