/** Sorting of session credentials into the kinds a proxy can use. */
module Credentials {
  import opened Options

  datatype UsernamePassword = UsernamePassword(username: string, password: string)

  datatype SshPrivateKey = SshPrivateKey(username: string, privateKey: string, passphrase: string)

  /** A credential as received: its source's type if it has a source, its attributes, and the decoded secret if any. */
  datatype Raw<A> = Raw(typ: Option<string>, attributes: A, decoded: Option<A>)

  /** A structure being filled. The mark that says it was used is a field like the others, and decoded like them. */
  datatype Filled<C> = Filled(fields: C, consumed: bool)

  /** Decoding of attributes over a structure that may already be partly filled; it can fail. */
  datatype Mapper<!A> = Mapper(
    usernamePassword: (Filled<UsernamePassword>, A) -> Option<Filled<UsernamePassword>>,
    sshPrivateKey: (Filled<SshPrivateKey>, A) -> Option<Filled<SshPrivateKey>>)

  datatype Parsed<C, A> = Parsed(value: Filled<C>, raw: Raw<A>)

  datatype Sorted<A> = Sorted(
    usernamePassword: seq<Parsed<UsernamePassword, A>>,
    sshPrivateKey: seq<Parsed<SshPrivateKey, A>>,
    unspecified: seq<Raw<A>>)

  const NO_UP := Filled(UsernamePassword("", ""), false)
  const NO_SPK := Filled(SshPrivateKey("", "", ""), false)

  predicate Complete(up: Filled<UsernamePassword>) {
    up.fields.username != "" && up.fields.password != ""
  }

  predicate CompleteKey(spk: Filled<SshPrivateKey>) {
    spk.fields.username != "" && spk.fields.privateKey != ""
  }

  datatype Kind =
    | AsUsernamePassword(up: Filled<UsernamePassword>)
    | AsSshPrivateKey(spk: Filled<SshPrivateKey>)
    | AsUnspecified

  /**
    The kind of one credential, or an error: by its declared type, then by its decoded
    secret on top of what that gave.
   */
  function Classify<A>(m: Mapper<A>, c: Raw<A>): Option<Kind> {
    var typ :- c.typ;
    var up :- if typ == "username_password" then m.usernamePassword(NO_UP, c.attributes) else Some(NO_UP);
    var spk :- if typ == "ssh_private_key" then m.sshPrivateKey(NO_SPK, c.attributes) else Some(NO_SPK);
    if typ == "username_password" && Complete(up) then Some(AsUsernamePassword(up))
    else if typ == "ssh_private_key" && CompleteKey(spk) then Some(AsSshPrivateKey(spk))
    else if c.decoded.None? then Some(AsUnspecified)
    else
      var up' :- m.usernamePassword(up, c.decoded.value);
      if Complete(up') then Some(AsUsernamePassword(up'))
      else
        var spk' :- m.sshPrivateKey(spk, c.decoded.value);
        Some(if CompleteKey(spk') then AsSshPrivateKey(spk') else AsUnspecified)
  }

  // ----- what the kinds mean

  /** What the attributes fill in, for a credential declared to be a username and password. */
  function FromAttributes<A>(m: Mapper<A>, c: Raw<A>): Option<Filled<UsernamePassword>> {
    if c.typ == Some("username_password") then m.usernamePassword(NO_UP, c.attributes) else Some(NO_UP)
  }

  function KeyFromAttributes<A>(m: Mapper<A>, c: Raw<A>): Option<Filled<SshPrivateKey>> {
    if c.typ == Some("ssh_private_key") then m.sshPrivateKey(NO_SPK, c.attributes) else Some(NO_SPK)
  }

  /** The attributes decode, and complete the structure of the declared type. */
  predicate AttributesDecide<A>(m: Mapper<A>, c: Raw<A>) {
    || (FromAttributes(m, c).Some? && Complete(FromAttributes(m, c).value))
    || (KeyFromAttributes(m, c).Some? && CompleteKey(KeyFromAttributes(m, c).value))
  }

  /** The source is there and the attributes decode, but leave the structure of the declared type incomplete. */
  predicate AttributesFallShort<A>(m: Mapper<A>, c: Raw<A>) {
    c.typ.Some? && FromAttributes(m, c).Some? && KeyFromAttributes(m, c).Some? && !AttributesDecide(m, c)
  }

  /** A class never holds an incomplete structure. */
  lemma ClassesComplete<A>(m: Mapper<A>, c: Raw<A>)
    ensures match Classify(m, c) {
              case Some(AsUsernamePassword(up)) => Complete(up)
              case Some(AsSshPrivateKey(spk)) => CompleteKey(spk)
              case _ => true
            }
  {
  }

  /** Complete attributes of the declared type decide, whatever secret comes with them. */
  lemma DeclaredTypeDecides<A>(m: Mapper<A>, c: Raw<A>, decoded: Option<A>)
    requires c.typ.Some? && AttributesDecide(m, c)
    ensures Classify(m, c) == Classify(m, c.(decoded := decoded))
    ensures Classify(m, c) == Some(
      if c.typ.value == "username_password" then AsUsernamePassword(FromAttributes(m, c).value)
      else AsSshPrivateKey(KeyFromAttributes(m, c).value))
    ensures c.typ.value in {"username_password", "ssh_private_key"}
  {
  }

  /**
    A credential is unspecified exactly when neither its attributes nor its secret, if
    any, completes either structure.
   */
  lemma UnspecifiedIff<A>(m: Mapper<A>, c: Raw<A>)
    ensures Classify(m, c) == Some(AsUnspecified) <==>
      && AttributesFallShort(m, c)
      && (c.decoded.Some? ==>
            && var up, spk := m.usernamePassword(FromAttributes(m, c).value, c.decoded.value),
                              m.sshPrivateKey(KeyFromAttributes(m, c).value, c.decoded.value);
            && up.Some? && !Complete(up.value) && spk.Some? && !CompleteKey(spk.value))
  {
  }

  /**
    The declared type does not bind: a declared key becomes a username and password
    exactly when its attributes fall short and its secret holds one.
   */
  lemma KeyAsPasswordIff<A>(m: Mapper<A>, c: Raw<A>, up: Filled<UsernamePassword>)
    requires c.typ == Some("ssh_private_key")
    ensures Classify(m, c) == Some(AsUsernamePassword(up)) <==>
      && AttributesFallShort(m, c) && c.decoded.Some?
      && m.usernamePassword(NO_UP, c.decoded.value) == Some(up) && Complete(up)
  {
  }

  /**
    Conversely a declared username and password becomes a key exactly when, with the
    secret on top, it stays incomplete and the secret holds a key.
   */
  lemma PasswordAsKeyIff<A>(m: Mapper<A>, c: Raw<A>, spk: Filled<SshPrivateKey>)
    requires c.typ == Some("username_password")
    ensures Classify(m, c) == Some(AsSshPrivateKey(spk)) <==>
      && AttributesFallShort(m, c) && c.decoded.Some?
      && var up := m.usernamePassword(FromAttributes(m, c).value, c.decoded.value);
      && up.Some? && !Complete(up.value)
      && m.sshPrivateKey(NO_SPK, c.decoded.value) == Some(spk) && CompleteKey(spk)
  {
  }

  /**
    Whatever the declared type: a credential becomes the username and password `x`
    exactly if it is declared one and its attributes give the complete `x`, or if
    source and attributes are in order but complete nothing and its secret, decoded
    over what they gave, does.
   */
  lemma PasswordIff<A>(m: Mapper<A>, c: Raw<A>, x: Filled<UsernamePassword>)
    ensures Classify(m, c) == Some(AsUsernamePassword(x)) <==>
      && x.fields.username != "" && x.fields.password != ""
      && (|| (&& c.typ == Some("username_password")
              && m.usernamePassword(Filled(UsernamePassword("", ""), false), c.attributes) == Some(x))
          || (&& AttributesFallShort(m, c) && c.decoded.Some?
              && m.usernamePassword(FromAttributes(m, c).value, c.decoded.value) == Some(x)))
  {
  }

  /** And the key `x` likewise, where the secret leaves the username and password incomplete. */
  lemma KeyIff<A>(m: Mapper<A>, c: Raw<A>, x: Filled<SshPrivateKey>)
    ensures Classify(m, c) == Some(AsSshPrivateKey(x)) <==>
      && x.fields.username != "" && x.fields.privateKey != ""
      && (|| (&& c.typ == Some("ssh_private_key")
              && m.sshPrivateKey(Filled(SshPrivateKey("", "", ""), false), c.attributes) == Some(x))
          || (&& AttributesFallShort(m, c) && c.decoded.Some?
              && (var up := m.usernamePassword(FromAttributes(m, c).value, c.decoded.value);
                  up.Some? && (up.value.fields.username == "" || up.value.fields.password == ""))
              && m.sshPrivateKey(KeyFromAttributes(m, c).value, c.decoded.value) == Some(x)))
  {
  }

  /** What falling short means, field by field. */
  lemma FallShortIff<A>(m: Mapper<A>, c: Raw<A>)
    ensures FromAttributes(m, c) ==
      (if c.typ == Some("username_password")
       then m.usernamePassword(Filled(UsernamePassword("", ""), false), c.attributes)
       else Some(Filled(UsernamePassword("", ""), false)))
    ensures KeyFromAttributes(m, c) ==
      (if c.typ == Some("ssh_private_key")
       then m.sshPrivateKey(Filled(SshPrivateKey("", "", ""), false), c.attributes)
       else Some(Filled(SshPrivateKey("", "", ""), false)))
    ensures AttributesFallShort(m, c) <==>
      && c.typ.Some? && FromAttributes(m, c).Some? && KeyFromAttributes(m, c).Some?
      && (var up := FromAttributes(m, c).value.fields; up.username == "" || up.password == "")
      && (var key := KeyFromAttributes(m, c).value.fields; key.username == "" || key.privateKey == "")
  {
  }

  /** An error: no source, attributes that do not decode, or a secret that is needed and does not. */
  lemma ClassifyFailsIff<A>(m: Mapper<A>, c: Raw<A>)
    ensures Classify(m, c).None? <==>
      || c.typ.None? || FromAttributes(m, c).None? || KeyFromAttributes(m, c).None?
      || (
        && AttributesFallShort(m, c) && c.decoded.Some?
        && var up := m.usernamePassword(FromAttributes(m, c).value, c.decoded.value);
        && (up.None? || (!Complete(up.value) && m.sshPrivateKey(KeyFromAttributes(m, c).value, c.decoded.value).None?)))
  {
  }

  function Add<A>(out: Sorted<A>, kind: Kind, c: Raw<A>): Sorted<A> {
    match kind
    case AsUsernamePassword(up) => out.(usernamePassword := out.usernamePassword + [Parsed(up, c)])
    case AsSshPrivateKey(spk) => out.(sshPrivateKey := out.sshPrivateKey + [Parsed(spk, c)])
    case AsUnspecified => out.(unspecified := out.unspecified + [c])
  }

  /** All credentials sorted in order, or an error if any of them gives one. */
  ghost function SortAll<A>(m: Mapper<A>, cs: seq<Raw<A>>): Option<Sorted<A>> {
    if cs == [] then Some(Sorted([], [], []))
    else
      var out :- SortAll(m, cs[..|cs| - 1]);
      var kind :- Classify(m, cs[|cs| - 1]);
      Some(Add(out, kind, cs[|cs| - 1]))
  }

  lemma {:induction false} SortAllFails<A>(m: Mapper<A>, cs: seq<Raw<A>>, k: nat)
    requires k <= |cs| && SortAll(m, cs[..k]).None?
    ensures SortAll(m, cs).None?
    decreases |cs|
  {
    if k < |cs| {
      assert cs[..|cs| - 1][..k] == cs[..k];
      SortAllFails(m, cs[..|cs| - 1], k);
    } else {
      assert cs[..k] == cs;
    }
  }

  /** One bad credential fails them all, and nothing else does. */
  lemma {:induction false} SortAllFailsIff<A>(m: Mapper<A>, cs: seq<Raw<A>>)
    ensures SortAll(m, cs).None? <==> exists i :: 0 <= i < |cs| && Classify(m, cs[i]).None?
  {
    hide Classify;
    if cs != [] {
      var n := |cs| - 1;
      SortAllFailsIff(m, cs[..n]);
      if i :| 0 <= i < |cs| && Classify(m, cs[i]).None? {
        assert i < n ==> cs[..n][i] == cs[i];
      } else {
        forall i | 0 <= i < n ensures Classify(m, cs[..n][i]).Some? {
          assert cs[..n][i] == cs[i];
        }
      }
    }
  }

  method ParseCredentials<A>(m: Mapper<A>, cs: seq<Raw<A>>) returns (r: Option<Sorted<A>>)
    ensures r == SortAll(m, cs)
  {
    hide Classify;
    var out := Sorted([], [], []);
    for i := 0 to |cs|
      invariant SortAll(m, cs[..i]) == Some(out)
    {
      var c := cs[i];
      assert cs[..i + 1][..i] == cs[..i] && cs[..i + 1][i] == c;
      var kind := ClassifyOne(m, c);
      if kind.None? {
        SortAllFails(m, cs, i + 1);
        return None;
      }
      match kind.value
      case AsUsernamePassword(up) => out := out.(usernamePassword := out.usernamePassword + [Parsed(up, c)]);
      case AsSshPrivateKey(spk) => out := out.(sshPrivateKey := out.sshPrivateKey + [Parsed(spk, c)]);
      case AsUnspecified => out := out.(unspecified := out.unspecified + [c]);
    }
    assert cs[..|cs|] == cs;
    return Some(out);
  }

  /** One turn of the loop, with the two structures filled step by step. */
  method ClassifyOne<A>(m: Mapper<A>, c: Raw<A>) returns (kind: Option<Kind>)
    ensures kind == Classify(m, c)
  {
    if c.typ.None? {
      return None;
    }
    var up, spk := NO_UP, NO_SPK;
    if c.typ.value == "username_password" {
      var filled := m.usernamePassword(up, c.attributes);
      if filled.None? {
        return None;
      }
      up := filled.value;
      if Complete(up) {
        return Some(AsUsernamePassword(up));
      }
    } else if c.typ.value == "ssh_private_key" {
      var filled := m.sshPrivateKey(spk, c.attributes);
      if filled.None? {
        return None;
      }
      spk := filled.value;
      if CompleteKey(spk) {
        return Some(AsSshPrivateKey(spk));
      }
    }
    if c.decoded.Some? {
      var more := m.usernamePassword(up, c.decoded.value);
      if more.None? {
        return None;
      }
      up := more.value;
      if Complete(up) {
        return Some(AsUsernamePassword(up));
      }
      var key := m.sshPrivateKey(spk, c.decoded.value);
      if key.None? {
        return None;
      }
      spk := key.value;
      if CompleteKey(spk) {
        return Some(AsSshPrivateKey(spk));
      }
    }
    return Some(AsUnspecified);
  }

  // ----- conservation

  function Raws<C, A>(ps: seq<Parsed<C, A>>): seq<Raw<A>> {
    seq(|ps|, i requires 0 <= i < |ps| => ps[i].raw)
  }

  /** `sub` is `all` with some elements left out. */
  ghost predicate Subsequence<T>(sub: seq<T>, all: seq<T>) {
    if all == [] then sub == []
    else (
      || Subsequence(sub, all[..|all| - 1])
      || (sub != [] && sub[|sub| - 1] == all[|all| - 1] && Subsequence(sub[..|sub| - 1], all[..|all| - 1]))
    )
  }

  lemma SubsequenceGrows<T>(sub: seq<T>, all: seq<T>, x: T)
    requires Subsequence(sub, all)
    ensures Subsequence(sub, all + [x]) && Subsequence(sub + [x], all + [x])
  {
    assert (all + [x])[..|all|] == all && (sub + [x])[..|sub|] == sub;
  }

  /** Three parts that together hold exactly the elements of `all`, each in the order of `all`. */
  ghost predicate Splits<T>(a: seq<T>, b: seq<T>, c: seq<T>, all: seq<T>) {
    && multiset(a) + multiset(b) + multiset(c) == multiset(all)
    && Subsequence(a, all) && Subsequence(b, all) && Subsequence(c, all)
  }

  lemma SplitsGrow<T>(a: seq<T>, b: seq<T>, c: seq<T>, all: seq<T>, x: T)
    requires Splits(a, b, c, all)
    ensures Splits(a + [x], b, c, all + [x]) && Splits(a, b + [x], c, all + [x]) && Splits(a, b, c + [x], all + [x])
  {
    hide Subsequence;
    SubsequenceGrows(a, all, x);
    SubsequenceGrows(b, all, x);
    SubsequenceGrows(c, all, x);
  }

  lemma RawsGrow<C, A>(ps: seq<Parsed<C, A>>, p: Parsed<C, A>)
    ensures Raws(ps + [p]) == Raws(ps) + [p.raw]
  {
  }

  /** On success nothing is lost or made up, and each class keeps the order of arrival. */
  lemma {:induction false} Conservation<A>(m: Mapper<A>, cs: seq<Raw<A>>)
    requires SortAll(m, cs).Some?
    ensures var out := SortAll(m, cs).value;
            Splits(Raws(out.usernamePassword), Raws(out.sshPrivateKey), out.unspecified, cs)
  {
    hide Classify, Splits, Raws;
    if cs == [] {
      EmptySplits<A>();
    } else {
      var front, c := cs[..|cs| - 1], cs[|cs| - 1];
      Conservation(m, front);
      assert cs == front + [c];
      var before := SortAll(m, front).value;
      SplitsGrow(Raws(before.usernamePassword), Raws(before.sshPrivateKey), before.unspecified, front, c);
      match Classify(m, c).value
      case AsUsernamePassword(up) => RawsGrow(before.usernamePassword, Parsed(up, c));
      case AsSshPrivateKey(spk) => RawsGrow(before.sshPrivateKey, Parsed(spk, c));
      case AsUnspecified =>
    }
  }

  /**
    Each class holds only credentials of its kind, each with the complete structure it
    was found to hold, mark included.
   */
  lemma {:induction false} ClassesSound<A>(m: Mapper<A>, cs: seq<Raw<A>>)
    requires SortAll(m, cs).Some?
    ensures var out := SortAll(m, cs).value;
            && (forall p :: p in out.usernamePassword ==>
                  Complete(p.value) && Classify(m, p.raw) == Some(AsUsernamePassword(p.value)))
            && (forall p :: p in out.sshPrivateKey ==>
                  CompleteKey(p.value) && Classify(m, p.raw) == Some(AsSshPrivateKey(p.value)))
            && (forall c :: c in out.unspecified ==> Classify(m, c) == Some(AsUnspecified))
  {
    hide Classify, Complete, CompleteKey;
    if cs != [] {
      ClassesSound(m, cs[..|cs| - 1]);
      ClassesComplete(m, cs[|cs| - 1]);
    }
  }

  lemma EmptySplits<A>()
    ensures Splits(Raws<UsernamePassword, A>([]), Raws<SshPrivateKey, A>([]), [], [])
  {
  }

  function Unconsumed<C, A>(ps: seq<Parsed<C, A>>): seq<Raw<A>> {
    if ps == [] then []
    else Unconsumed(ps[..|ps| - 1]) + if ps[|ps| - 1].value.consumed then [] else [ps[|ps| - 1].raw]
  }

  function Consumed<C, A>(ps: seq<Parsed<C, A>>): seq<Raw<A>> {
    if ps == [] then []
    else Consumed(ps[..|ps| - 1]) + if ps[|ps| - 1].value.consumed then [ps[|ps| - 1].raw] else []
  }

  /** The unconsumed ones are those not marked, in their order. */
  lemma UnconsumedSnoc<C, A>(ps: seq<Parsed<C, A>>, p: Parsed<C, A>)
    ensures Unconsumed<C, A>([]) == []
    ensures Unconsumed(ps + [p]) == Unconsumed(ps) + (if p.value.consumed then [] else [p.raw])
  {
    assert (ps + [p])[..|ps|] == ps;
  }

  method CollectUnconsumed<C, A>(ps: seq<Parsed<C, A>>) returns (out: seq<Raw<A>>)
    ensures out == Unconsumed(ps)
  {
    out := [];
    for i := 0 to |ps|
      invariant out == Unconsumed(ps[..i])
    {
      assert ps[..i + 1][..i] == ps[..i];
      if !ps[i].value.consumed {
        out := out + [ps[i].raw];
      }
    }
    assert ps[..|ps|] == ps;
  }

  method UnconsumedSessionCredentials<A>(c: Sorted<A>) returns (out: seq<Raw<A>>)
    ensures out == c.unspecified + Unconsumed(c.sshPrivateKey) + Unconsumed(c.usernamePassword)
    ensures multiset(out) + multiset(Consumed(c.sshPrivateKey)) + multiset(Consumed(c.usernamePassword))
         == multiset(c.unspecified) + multiset(Raws(c.sshPrivateKey)) + multiset(Raws(c.usernamePassword))
  {
    var ssh := CollectUnconsumed(c.sshPrivateKey);
    var up := CollectUnconsumed(c.usernamePassword);
    out := c.unspecified + ssh + up;
    Partition(c.sshPrivateKey);
    Partition(c.usernamePassword);
  }

  lemma {:induction false} Partition<C, A>(ps: seq<Parsed<C, A>>)
    ensures multiset(Unconsumed(ps)) + multiset(Consumed(ps)) == multiset(Raws(ps))
  {
    if ps != [] {
      Partition(ps[..|ps| - 1]);
      assert Raws(ps) == Raws(ps[..|ps| - 1]) + [ps[|ps| - 1].raw];
    }
  }

  // ----- credentials that come marked as consumed

  /** The credential comes out of parsing marked as consumed. */
  predicate ComesConsumed<A>(m: Mapper<A>, c: Raw<A>) {
    match Classify(m, c)
    case Some(AsUsernamePassword(up)) => up.consumed
    case Some(AsSshPrivateKey(spk)) => spk.consumed
    case _ => false
  }

  function Or<T>(o: Option<T>, otherwise: T): T {
    if o.Some? then o.value else otherwise
  }

  /** What a map says about the mark, if anything, is what decoding it leaves there. */
  ghost predicate Marks<A(!new)>(m: Mapper<A>, says: A -> Option<bool>) {
    && (forall t, a :: m.usernamePassword(t, a).Some? ==>
          m.usernamePassword(t, a).value.consumed == Or(says(a), t.consumed))
    && (forall t, a :: m.sshPrivateKey(t, a).Some? ==>
          m.sshPrivateKey(t, a).value.consumed == Or(says(a), t.consumed))
  }

  /** The attributes were decoded into the structure the credential ended up in. */
  predicate AttributesCount<A>(c: Raw<A>, kind: Kind) {
    || (c.typ == Some("username_password") && kind.AsUsernamePassword?)
    || (c.typ == Some("ssh_private_key") && kind.AsSshPrivateKey?)
  }

  /**
    A parsed credential is consumed exactly if what was decoded into it says so: its
    secret, where the attributes fell short and the secret says anything, and
    otherwise its attributes, if they were decoded into the same structure.
   */
  lemma ComesConsumedIff<A(!new)>(m: Mapper<A>, says: A -> Option<bool>, c: Raw<A>)
    requires Marks(m, says) && Classify(m, c).Some? && !Classify(m, c).value.AsUnspecified?
    ensures ComesConsumed(m, c) <==>
      if !AttributesDecide(m, c) && c.decoded.Some? && says(c.decoded.value).Some? then says(c.decoded.value).value
      else AttributesCount(c, Classify(m, c).value) && says(c.attributes) == Some(true)
  {
  }

  lemma {:induction false} NoneConsumedIff<C, A>(ps: seq<Parsed<C, A>>)
    ensures Consumed(ps) == [] <==> forall p :: p in ps ==> !p.value.consumed
  {
    if ps != [] {
      var front, p := ps[..|ps| - 1], ps[|ps| - 1];
      NoneConsumedIff(front);
      assert ps == front + [p];
    }
  }

  /** A credential comes marked exactly if its class holds it so. */
  lemma {:induction false} MarkedInClass<A>(m: Mapper<A>, cs: seq<Raw<A>>)
    requires SortAll(m, cs).Some?
    ensures var out := SortAll(m, cs).value;
            (exists c :: c in cs && ComesConsumed(m, c)) <==>
              || (exists p :: p in out.usernamePassword && p.value.consumed)
              || (exists p :: p in out.sshPrivateKey && p.value.consumed)
  {
    hide Classify;
    if cs != [] {
      var front, c := cs[..|cs| - 1], cs[|cs| - 1];
      MarkedInClass(m, front);
      assert cs == front + [c];
      MarkedAdd(m, SortAll(m, front).value, c);
    }
  }

  lemma MarkedAdd<A>(m: Mapper<A>, before: Sorted<A>, c: Raw<A>)
    requires Classify(m, c).Some?
    ensures var out := Add(before, Classify(m, c).value, c);
            && ((exists p :: p in out.usernamePassword && p.value.consumed) <==>
                  || (exists p :: p in before.usernamePassword && p.value.consumed)
                  || (ComesConsumed(m, c) && Classify(m, c).value.AsUsernamePassword?))
            && ((exists p :: p in out.sshPrivateKey && p.value.consumed) <==>
                  || (exists p :: p in before.sshPrivateKey && p.value.consumed)
                  || (ComesConsumed(m, c) && Classify(m, c).value.AsSshPrivateKey?))
  {
    hide Classify;
    match Classify(m, c).value
    case AsUsernamePassword(up) => ConsumedSnoc(before.usernamePassword, Parsed(up, c));
    case AsSshPrivateKey(spk) => ConsumedSnoc(before.sshPrivateKey, Parsed(spk, c));
    case AsUnspecified =>
  }

  lemma ConsumedSnoc<C, A>(ps: seq<Parsed<C, A>>, p: Parsed<C, A>)
    ensures (exists q :: q in ps + [p] && q.value.consumed) <==>
      (exists q :: q in ps && q.value.consumed) || p.value.consumed
  {
    assert p in ps + [p];
    assert forall q :: q in ps ==> q in ps + [p];
  }

  /** What the caller is still to be shown after parsing, before using anything. */
  function Remaining<A>(c: Sorted<A>): seq<Raw<A>> {
    c.unspecified + Unconsumed(c.sshPrivateKey) + Unconsumed(c.usernamePassword)
  }

  /** Right after parsing every credential is unconsumed, as it should be, exactly if none comes marked. */
  lemma AllRemainIff<A>(m: Mapper<A>, cs: seq<Raw<A>>)
    requires SortAll(m, cs).Some?
    ensures multiset(Remaining(SortAll(m, cs).value)) == multiset(cs) <==> forall c :: c in cs ==> !ComesConsumed(m, c)
  {
    hide SortAll, ComesConsumed, Subsequence;
    var out := SortAll(m, cs).value;
    Conservation(m, cs);
    Partition(out.usernamePassword);
    Partition(out.sshPrivateKey);
    NoneConsumedIff(out.usernamePassword);
    NoneConsumedIff(out.sshPrivateKey);
    MarkedInClass(m, cs);
    RemainingSizes(out, cs);
  }

  lemma RemainingSizes<A>(out: Sorted<A>, cs: seq<Raw<A>>)
    requires var up, spk := out.usernamePassword, out.sshPrivateKey;
             && multiset(Raws(up)) + multiset(Raws(spk)) + multiset(out.unspecified) == multiset(cs)
             && multiset(Unconsumed(up)) + multiset(Consumed(up)) == multiset(Raws(up))
             && multiset(Unconsumed(spk)) + multiset(Consumed(spk)) == multiset(Raws(spk))
    ensures multiset(Remaining(out)) == multiset(cs) <==>
      Consumed(out.usernamePassword) == [] && Consumed(out.sshPrivateKey) == []
  {
    hide Raws, Consumed, Unconsumed;
    var gone := multiset(Consumed(out.usernamePassword)) + multiset(Consumed(out.sshPrivateKey));
    assert multiset(Remaining(out)) + gone == multiset(cs);
    if multiset(Remaining(out)) == multiset(cs) {
      assert |gone| == 0;
    }
  }

  // ----- the same on maps with these fields

  /** A map with some of the fields the structures have. */
  datatype Attributes = Attributes(
    username: Option<string>, password: Option<string>, privateKey: Option<string>, passphrase: Option<string>,
    consumed: Option<bool>)

  /** Each field present in the map replaces what the structure had. */
  function FieldMapper(): Mapper<Attributes> {
    Mapper(
      (t: Filled<UsernamePassword>, a: Attributes) => Some(Filled(
        UsernamePassword(Or(a.username, t.fields.username), Or(a.password, t.fields.password)),
        Or(a.consumed, t.consumed))),
      (t: Filled<SshPrivateKey>, a: Attributes) => Some(Filled(
        SshPrivateKey(Or(a.username, t.fields.username), Or(a.privateKey, t.fields.privateKey),
                      Or(a.passphrase, t.fields.passphrase)),
        Or(a.consumed, t.consumed))))
  }

  lemma FieldMapperMarks()
    ensures Marks(FieldMapper(), (a: Attributes) => a.consumed)
  {
  }

  /** A complete credential whose attributes hold the mark is never shown, though nobody used it. */
  lemma MarkedCredentialIsDropped(username: string, password: string)
    requires username != "" && password != ""
    ensures var a := Attributes(Some(username), Some(password), None, None, Some(true));
            var c := Raw(Some("username_password"), a, None);
            && SortAll(FieldMapper(), [c]).Some?
            && Remaining(SortAll(FieldMapper(), [c]).value) == []
  {
    var c := Raw(Some("username_password"), Attributes(Some(username), Some(password), None, None, Some(true)), None);
    var p := Parsed(Filled(UsernamePassword(username, password), true), c);
    assert Classify(FieldMapper(), c) == Some(AsUsernamePassword(p.value));
    var m, cs := FieldMapper(), [c];
    assert cs[..|cs| - 1] == [] && cs[|cs| - 1] == c;
    assert SortAll(m, []) == Some(Sorted([], [], []));
    assert SortAll(m, cs) == Some(Add(Sorted([], [], []), AsUsernamePassword(p.value), c));
    var out := SortAll(m, cs).value;
    assert out.usernamePassword == [p] && [p][..|[p]| - 1] == [] && [p][|[p]| - 1] == p;
    assert Unconsumed(out.usernamePassword) == Unconsumed<UsernamePassword, Attributes>([]) + [];
  }
}
