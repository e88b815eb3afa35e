/**
  User grants: the object hierarchy a grant applies to (everything, one
  database, one table), grant entries holding a set of privileges for a user
  at a host pattern, and the grant set a user's privileges are verified
  against, granted into and revoked from.

  The privilege flags are the type parameter `P`; a bit-flag set becomes a
  `set<P>`, `|=` becomes union and `^=` symmetric difference.
 */
module UserGrant {
  import opened Wrappers

  datatype GrantObject = Global | Database(db: string) | Table(db: string, table: string)

  /**
    `GrantObject::contains`: everything lies under `Global`, a database holds
    itself and its tables, a table holds only itself.
   */
  function Contains(outer: GrantObject, inner: GrantObject): (r: bool)
    ensures r <==> outer.Global? || outer == inner || (outer.Database? && inner.Table? && inner.db == outer.db)
  {
    match (outer, inner)
    case (Global, _) => true
    case (Database(_), Global) => false
    case (Database(lhs), Database(rhs)) => lhs == rhs
    case (Database(lhs), Table(rhs, _)) => lhs == rhs
    case (Table(lhsDb, lhsTable), Table(rhsDb, rhsTable)) => lhsDb == rhsDb && lhsTable == rhsTable
    case (Table(_, _), _) => false
  }

  lemma ContainsIsPreorder(a: GrantObject, b: GrantObject, c: GrantObject)
    ensures Contains(a, a)
    ensures Contains(a, b) && Contains(b, c) ==> Contains(a, c)
    ensures Contains(a, b) && Contains(b, a) ==> a == b
  {
  }

  // ---------------------------------------------------------------------------
  // Rendering of a grant object, and a reader for it.
  // ---------------------------------------------------------------------------

  /** `Display for GrantObject`: `*.*`, `'db'.*` or `'db'.'table'`. */
  function ObjectToString(o: GrantObject): (r: string)
    ensures r == "*.*" <==> o.Global?
    ensures |r| >= 3
    ensures o.Table? ==> r[|r| - 1] == '\''
    ensures !o.Table? ==> r[|r| - 2..] == ".*"
    ensures !o.Global? ==> |r| >= |o.db| + 2 && r[0] == '\'' && r[1..|o.db| + 1] == o.db && r[|o.db| + 1] == '\''
  {
    match o
    case Global => "*.*"
    case Database(db) =>
      var r := "'" + db + "'.*";
      assert r[1..|db| + 1] == db;
      r
    case Table(db, table) =>
      var r := "'" + db + "'.'" + table + "'";
      assert r[1..|db| + 1] == db;
      r
  }

  predicate QuoteFree(s: string) {
    forall i :: 0 <= i < |s| ==> s[i] != '\''
  }

  /** The position of the first quote at or after `from`, or `|s|`. */
  function NextQuote(s: string, from: nat): (r: nat)
    requires from <= |s|
    ensures from <= r <= |s|
    ensures r < |s| ==> s[r] == '\''
    ensures QuoteFree(s[from..r])
    decreases |s| - from
  {
    if from == |s| then from
    else if s[from] == '\'' then from
    else
      var r := NextQuote(s, from + 1);
      assert s[from..r] == [s[from]] + s[from + 1..r];
      r
  }

  /** Reads back what `ObjectToString` writes, for quote-free names. */
  function ParseObject(s: string): Option<GrantObject> {
    if s == "*.*" then Some(Global)
    else if |s| == 0 || s[0] != '\'' then None
    else
      var close := NextQuote(s, 1);
      if close == |s| then None
      else ParseAfterName(s[1..close], s[close + 1..])
  }

  /** What follows the quoted database name: `.*`, or a quoted table name. */
  function ParseAfterName(db: string, rest: string): Option<GrantObject> {
    if rest == ".*" then Some(Database(db))
    else if |rest| >= 3 && rest[..2] == ".'" && rest[|rest| - 1] == '\'' && QuoteFree(rest[2..|rest| - 1])
    then Some(Table(db, rest[2..|rest| - 1]))
    else None
  }

  /** A quote-free name between quotes is read as the database name. */
  lemma ParseQuotedName(db: string, rest: string)
    requires QuoteFree(db)
    ensures ParseObject("'" + db + "'" + rest) == ParseAfterName(db, rest)
  {
    var s := "'" + db + "'" + rest;
    assert s[0] == '\'';
    NextQuoteAfter(db, rest);
    assert s[1..|db| + 1] == db;
    assert s[|db| + 2..] == rest;
  }

  /** The first quote after an opening quote is the one that closes a quote-free name. */
  lemma NextQuoteAfter(name: string, tail: string)
    requires QuoteFree(name)
    ensures var s := "'" + name + "'" + tail; NextQuote(s, 1) == |name| + 1
  {
    var s := "'" + name + "'" + tail;
    NextQuoteSkips(s, 1, |name| + 1);
  }

  lemma {:induction false} NextQuoteSkips(s: string, from: nat, k: nat)
    requires from <= k < |s| && s[k] == '\''
    requires forall i :: from <= i < k ==> s[i] != '\''
    ensures NextQuote(s, from) == k
    decreases k - from
  {
    if from < k {
      NextQuoteSkips(s, from + 1, k);
    }
  }

  /** Rendering loses nothing when database and table names hold no quote. */
  lemma ParseObjectToString(o: GrantObject)
    requires o.Database? || o.Table? ==> QuoteFree(o.db)
    requires o.Table? ==> QuoteFree(o.table)
    ensures ParseObject(ObjectToString(o)) == Some(o)
  {
    match o
    case Global =>
    case Database(db) => ParseDatabase(db);
    case Table(db, table) => ParseTable(db, table);
  }

  lemma ParseDatabase(db: string)
    requires QuoteFree(db)
    ensures ParseObject(ObjectToString(Database(db))) == Some(Database(db))
  {
    assert ObjectToString(Database(db)) == "'" + db + "'" + ".*";
    ParseQuotedName(db, ".*");
  }

  lemma ParseTable(db: string, table: string)
    requires QuoteFree(db) && QuoteFree(table)
    ensures ParseObject(ObjectToString(Table(db, table))) == Some(Table(db, table))
  {
    var rest := ".'" + table + "'";
    assert ObjectToString(Table(db, table)) == "'" + db + "'" + rest;
    ParseQuotedName(db, rest);
    assert rest != ".*" by {
      assert rest[1] == '\'';
    }
    assert rest[..2] == ".'";
    assert rest[2..|rest| - 1] == table;
  }

  /** Names are written unescaped, so a quote inside a name makes two tables render alike. */
  lemma RenderingIsAmbiguousWithQuotes()
    ensures Table("a'.'b", "c") != Table("a", "b'.'c")
    ensures ObjectToString(Table("a'.'b", "c")) == ObjectToString(Table("a", "b'.'c"))
  {
  }

  // ---------------------------------------------------------------------------
  // Grant entries.
  // ---------------------------------------------------------------------------

  datatype GrantEntry<P> = GrantEntry(user: string, hostPattern: string, obj: GrantObject, privileges: set<P>)

  /** `%` matches every host; any other pattern only the host spelled the same. */
  predicate MatchHostPattern(hostPattern: string, host: string) {
    hostPattern == "%" || hostPattern == host
  }

  predicate MatchesUserHost<P>(e: GrantEntry<P>, user: string, host: string) {
    e.user == user && MatchHostPattern(e.hostPattern, host)
  }

  /** The entry is the one for exactly this user, host pattern and object. */
  predicate MatchesEntry<P>(e: GrantEntry<P>, user: string, hostPattern: string, obj: GrantObject) {
    e.user == user && e.hostPattern == hostPattern && e.obj == obj
  }

  /** `GrantEntry::verify_privilege`. */
  function VerifyEntry<P>(e: GrantEntry<P>, user: string, host: string, obj: GrantObject, privilege: P): (r: bool)
    ensures r <==> && e.user == user
                   && (e.hostPattern == "%" || e.hostPattern == host)
                   && (e.obj.Global? || e.obj == obj || (e.obj.Database? && obj.Table? && obj.db == e.obj.db))
                   && privilege in e.privileges
  {
    if !MatchesUserHost(e, user, host) then false
    else if !Contains(e.obj, obj) then false
    else privilege in e.privileges
  }

  /** The privileges a kind of object can carry; their definitions are not part of this model. */
  datatype PrivilegeCatalog<!P> = PrivilegeCatalog(
    onGlobal: set<P>,
    onDatabase: set<P>,
    onTable: set<P>,
    // `Display for UserPrivilegeSet`
    render: set<P> -> string)

  function AvailablePrivileges<P>(catalog: PrivilegeCatalog<P>, o: GrantObject): set<P> {
    match o
    case Global => catalog.onGlobal
    case Database(_) => catalog.onDatabase
    case Table(_, _) => catalog.onTable
  }

  /** `Display for GrantEntry`: `ALL` stands for every privilege the object can carry. */
  function EntryToString<P>(catalog: PrivilegeCatalog<P>, e: GrantEntry<P>): (r: string)
    ensures AvailablePrivileges(catalog, e.obj) <= e.privileges ==>
              r == "GRANT ALL ON " + ObjectToString(e.obj) + " TO '" + e.user + "'@'" + e.hostPattern + "'"
    ensures !(AvailablePrivileges(catalog, e.obj) <= e.privileges) ==>
              r == "GRANT " + catalog.render(e.privileges) + " ON " + ObjectToString(e.obj)
                   + " TO '" + e.user + "'@'" + e.hostPattern + "'"
  {
    var privileges := if AvailablePrivileges(catalog, e.obj) <= e.privileges then "ALL"
                      else catalog.render(e.privileges);
    "GRANT " + privileges + " ON " + ObjectToString(e.obj) + " TO '" + e.user + "'@'" + e.hostPattern + "'"
  }

  /** The part of an entry's rendering after the privileges. */
  function EntryTail<P>(e: GrantEntry<P>): string {
    " ON " + ObjectToString(e.obj) + " TO '" + e.user + "'@'" + e.hostPattern + "'"
  }

  /**
    The rendering of an entry reads as `GRANT <privileges><tail>`. The
    privilege text is `ALL` exactly when the entry holds every privilege its
    kind of object can carry (given that no set of privileges is itself
    rendered as `ALL`), and is otherwise the rendering of the held set.
   */
  lemma EntryToStringParts<P>(catalog: PrivilegeCatalog<P>, e: GrantEntry<P>)
    requires forall ps :: catalog.render(ps) != "ALL"
    ensures var r := EntryToString(catalog, e);
            var tail := EntryTail(e);
            && |r| >= 6 + |tail|
            && r[..6] == "GRANT "
            && r[|r| - |tail|..] == tail
            && (r[6..|r| - |tail|] == "ALL" <==> AvailablePrivileges(catalog, e.obj) <= e.privileges)
            && (!(AvailablePrivileges(catalog, e.obj) <= e.privileges) ==>
                  r[6..|r| - |tail|] == catalog.render(e.privileges))
  {
    var r := EntryToString(catalog, e);
    var tail := EntryTail(e);
    var text := if AvailablePrivileges(catalog, e.obj) <= e.privileges then "ALL" else catalog.render(e.privileges);
    RenderingSplits(catalog, e, text);
    ThreeParts("GRANT ", text, tail);
    assert r[6..|r| - |tail|] == text;
  }

  /** The rendering is the privilege text between `GRANT ` and the tail. */
  lemma RenderingSplits<P>(catalog: PrivilegeCatalog<P>, e: GrantEntry<P>, text: string)
    requires text == if AvailablePrivileges(catalog, e.obj) <= e.privileges then "ALL" else catalog.render(e.privileges)
    ensures EntryToString(catalog, e) == "GRANT " + text + EntryTail(e)
  {
    var o := ObjectToString(e.obj);
    var u := " TO '" + e.user + "'@'" + e.hostPattern + "'";
    var head := "GRANT " + text;
    assert EntryToString(catalog, e) == head + " ON " + o + u;
    assert EntryTail(e) == " ON " + o + u;
    Associative(head + " ON ", o, u);
    Associative(head, " ON ", o + u);
    Associative(" ON ", o, u);
  }

  lemma Associative(a: string, b: string, c: string)
    ensures a + b + c == a + (b + c)
  {
  }

  lemma ThreeParts(a: string, b: string, c: string)
    ensures var s := a + b + c;
            && s[..|a|] == a && s[|a|..|s| - |c|] == b && s[|s| - |c|..] == c
  {
  }

  /** The object named in an entry's rendering reads back to the entry's object when names hold no quote. */
  lemma EntryTailNamesObject<P>(e: GrantEntry<P>)
    requires e.obj.Database? || e.obj.Table? ==> QuoteFree(e.obj.db)
    requires e.obj.Table? ==> QuoteFree(e.obj.table)
    ensures var tail := EntryTail(e);
            var o := ObjectToString(e.obj);
            && |tail| >= 4 + |o|
            && tail[..4] == " ON "
            && tail[4..4 + |o|] == o
            && ParseObject(tail[4..4 + |o|]) == Some(e.obj)
  {
    var o := ObjectToString(e.obj);
    var tail := EntryTail(e);
    assert tail == " ON " + o + (" TO '" + e.user + "'@'" + e.hostPattern + "'");
    assert tail[4..4 + |o|] == o;
    ParseObjectToString(e.obj);
  }

  // ---------------------------------------------------------------------------
  // Grant sets.
  // ---------------------------------------------------------------------------

  datatype UserGrantSet<P> = UserGrantSet(grants: seq<GrantEntry<P>>)

  /** `UserGrantSet::verify_privilege`: some entry grants the request. */
  function VerifyPrivilege<P>(s: UserGrantSet<P>, user: string, host: string, obj: GrantObject, privilege: P): (r: bool)
    ensures r <==> exists i :: 0 <= i < |s.grants| && VerifyEntry(s.grants[i], user, host, obj, privilege)
  {
    AnyVerifies(s.grants, user, host, obj, privilege)
  }

  function AnyVerifies<P>(grants: seq<GrantEntry<P>>, user: string, host: string, obj: GrantObject, privilege: P): (r: bool)
    ensures r <==> exists i :: 0 <= i < |grants| && VerifyEntry(grants[i], user, host, obj, privilege)
  {
    if |grants| == 0 then false
    else if VerifyEntry(grants[0], user, host, obj, privilege) then true
    else
      var rest := AnyVerifies(grants[1..], user, host, obj, privilege);
      assert forall i :: 1 <= i < |grants| ==> grants[i] == grants[1..][i - 1];
      rest
  }

  /**
    The loop of `grant_privileges`: each entry for (user, host pattern,
    obj) gains the privileges; `changed` records whether there was one.
   */
  function MergeInto<P>(grants: seq<GrantEntry<P>>, user: string, hostPattern: string, obj: GrantObject,
                        privileges: set<P>): (r: (seq<GrantEntry<P>>, bool))
    ensures |r.0| == |grants|
    ensures forall i :: 0 <= i < |grants| ==>
              r.0[i] == if MatchesEntry(grants[i], user, hostPattern, obj)
                        then grants[i].(privileges := grants[i].privileges + privileges)
                        else grants[i]
    ensures r.1 <==> exists i :: 0 <= i < |grants| && MatchesEntry(grants[i], user, hostPattern, obj)
  {
    if |grants| == 0 then ([], false)
    else
      var g := grants[0];
      var matched := MatchesEntry(g, user, hostPattern, obj);
      var head := if matched then g.(privileges := g.privileges + privileges) else g;
      var rest := MergeInto(grants[1..], user, hostPattern, obj, privileges);
      assert forall i :: 1 <= i < |grants| ==> grants[i] == grants[1..][i - 1];
      ([head] + rest.0, matched || rest.1)
  }

  /**
    `UserGrantSet::grant_privileges`: merge into every matching entry, or,
    when there is none, append one new entry at the end.
   */
  function GrantPrivileges<P>(s: UserGrantSet<P>, user: string, hostPattern: string, obj: GrantObject,
                              privileges: set<P>): (r: UserGrantSet<P>)
    ensures HasEntry(s, user, hostPattern, obj) ==> |r.grants| == |s.grants|
    ensures !HasEntry(s, user, hostPattern, obj) ==>
              |r.grants| == |s.grants| + 1
              && r.grants[|s.grants|] == GrantEntry(user, hostPattern, obj, privileges)
    ensures forall i :: 0 <= i < |s.grants| ==>
              r.grants[i] == if MatchesEntry(s.grants[i], user, hostPattern, obj)
                             then s.grants[i].(privileges := s.grants[i].privileges + privileges)
                             else s.grants[i]
  {
    var (merged, changed) := MergeInto(s.grants, user, hostPattern, obj, privileges);
    if changed then UserGrantSet(merged)
    else UserGrantSet(merged + [GrantEntry(user, hostPattern, obj, privileges)])
  }

  predicate HasEntry<P>(s: UserGrantSet<P>, user: string, hostPattern: string, obj: GrantObject) {
    exists i :: 0 <= i < |s.grants| && MatchesEntry(s.grants[i], user, hostPattern, obj)
  }

  /** After a grant, the grantee at that host pattern holds every granted privilege on the obj. */
  lemma GrantThenVerify<P>(s: UserGrantSet<P>, user: string, hostPattern: string, obj: GrantObject,
                           privileges: set<P>, p: P)
    requires p in privileges
    ensures VerifyPrivilege(GrantPrivileges(s, user, hostPattern, obj, privileges), user, hostPattern, obj, p)
  {
    var r := GrantPrivileges(s, user, hostPattern, obj, privileges);
    if HasEntry(s, user, hostPattern, obj) {
      var i :| 0 <= i < |s.grants| && MatchesEntry(s.grants[i], user, hostPattern, obj);
      assert VerifyEntry(r.grants[i], user, hostPattern, obj, p);
    } else {
      assert VerifyEntry(r.grants[|s.grants|], user, hostPattern, obj, p);
    }
  }

  /** Granting never takes a privilege away. */
  lemma GrantIsMonotone<P>(s: UserGrantSet<P>, user: string, hostPattern: string, obj: GrantObject,
                           privileges: set<P>, u: string, h: string, o: GrantObject, p: P)
    requires VerifyPrivilege(s, u, h, o, p)
    ensures VerifyPrivilege(GrantPrivileges(s, user, hostPattern, obj, privileges), u, h, o, p)
  {
    var r := GrantPrivileges(s, user, hostPattern, obj, privileges);
    var i :| 0 <= i < |s.grants| && VerifyEntry(s.grants[i], u, h, o, p);
    assert VerifyEntry(r.grants[i], u, h, o, p);
  }

  /** Granting the same privileges twice is granting them once. */
  lemma GrantIsIdempotent<P>(s: UserGrantSet<P>, user: string, hostPattern: string, obj: GrantObject,
                             privileges: set<P>)
    ensures var once := GrantPrivileges(s, user, hostPattern, obj, privileges);
            GrantPrivileges(once, user, hostPattern, obj, privileges) == once
  {
    var once := GrantPrivileges(s, user, hostPattern, obj, privileges);
    if !HasEntry(s, user, hostPattern, obj) {
      assert MatchesEntry(once.grants[|s.grants|], user, hostPattern, obj);
    }
    forall i | 0 <= i < |once.grants| && MatchesEntry(once.grants[i], user, hostPattern, obj)
      ensures privileges <= once.grants[i].privileges
    {
    }
    GrantIsAbsorbed(once, user, hostPattern, obj, privileges);
  }

  /** Granting what every matching entry already holds changes nothing. */
  lemma GrantIsAbsorbed<P>(s: UserGrantSet<P>, user: string, hostPattern: string, obj: GrantObject,
                           privileges: set<P>)
    requires HasEntry(s, user, hostPattern, obj)
    requires forall i :: 0 <= i < |s.grants| && MatchesEntry(s.grants[i], user, hostPattern, obj) ==>
               privileges <= s.grants[i].privileges
    ensures GrantPrivileges(s, user, hostPattern, obj, privileges) == s
  {
    var r := GrantPrivileges(s, user, hostPattern, obj, privileges);
    forall i | 0 <= i < |s.grants|
      ensures r.grants[i] == s.grants[i]
    {
      if MatchesEntry(s.grants[i], user, hostPattern, obj) {
        assert s.grants[i].privileges + privileges == s.grants[i].privileges;
      }
    }
    assert r.grants == s.grants;
  }

  // ---------------------------------------------------------------------------
  // Revoking.
  // ---------------------------------------------------------------------------

  /** Symmetric difference: the `^=` of bit flags. */
  function Toggle<P>(held: set<P>, flags: set<P>): (r: set<P>)
    ensures r * flags == flags - held
    ensures r - flags == held - flags
  {
    (held - flags) + (flags - held)
  }

  /** The map step of `revoke_privileges`: matching entries have the privileges toggled. */
  function ToggleMatching<P>(grants: seq<GrantEntry<P>>, user: string, hostPattern: string, obj: GrantObject,
                             privileges: set<P>): (r: seq<GrantEntry<P>>)
    ensures |r| == |grants|
    ensures forall i :: 0 <= i < |grants| ==>
              r[i] == if MatchesEntry(grants[i], user, hostPattern, obj)
                      then grants[i].(privileges := Toggle(grants[i].privileges, privileges))
                      else grants[i]
  {
    seq(|grants|, i requires 0 <= i < |grants| =>
      if MatchesEntry(grants[i], user, hostPattern, obj)
      then grants[i].(privileges := Toggle(grants[i].privileges, privileges))
      else grants[i])
  }

  /** The filter step of `revoke_privileges`: entries left with no privilege are dropped. */
  function DropEmpty<P>(grants: seq<GrantEntry<P>>): (r: seq<GrantEntry<P>>)
    ensures forall i :: 0 <= i < |r| ==> r[i].privileges != {} && r[i] in grants
    ensures forall i :: 0 <= i < |grants| && grants[i].privileges != {} ==> grants[i] in r
    ensures forall i :: 0 <= i < |grants| ==>
              multiset(r)[grants[i]] == if grants[i].privileges != {} then multiset(grants)[grants[i]] else 0
    ensures IsSubsequence(r, grants)
  {
    if |grants| == 0 then []
    else
      var rest := DropEmpty(grants[1..]);
      var r := if grants[0].privileges == {} then rest else [grants[0]] + rest;
      DropEmptyStep(grants, rest);
      DropEmptyKeeps(grants, rest);
      r
  }

  /** One step of `DropEmpty`: the head is kept exactly when it is non-empty, and the result stays a subsequence. */
  lemma DropEmptyKeeps<P>(grants: seq<GrantEntry<P>>, rest: seq<GrantEntry<P>>)
    requires |grants| > 0
    requires forall i :: 0 <= i < |rest| ==> rest[i].privileges != {} && rest[i] in grants[1..]
    requires forall i :: 0 <= i < |grants| - 1 && grants[1..][i].privileges != {} ==> grants[1..][i] in rest
    requires IsSubsequence(rest, grants[1..])
    ensures var r := if grants[0].privileges == {} then rest else [grants[0]] + rest;
            && (forall i :: 0 <= i < |r| ==> r[i].privileges != {} && r[i] in grants)
            && (forall i :: 0 <= i < |grants| && grants[i].privileges != {} ==> grants[i] in r)
            && IsSubsequence(r, grants)
  {
    assert forall i :: 1 <= i < |grants| ==> grants[i] == grants[1..][i - 1];
    if grants[0].privileges == {} {
      SubsequenceOfTail(rest, grants);
    } else {
      assert ([grants[0]] + rest)[1..] == rest;
    }
  }

  /** One step of `DropEmpty`: keeping or dropping the head keeps the counts of the tail's result right. */
  lemma DropEmptyStep<P>(grants: seq<GrantEntry<P>>, rest: seq<GrantEntry<P>>)
    requires |grants| > 0
    requires forall i :: 0 <= i < |rest| ==> rest[i] in grants[1..]
    requires forall i :: 0 <= i < |grants| - 1 ==>
               multiset(rest)[grants[1..][i]] == if grants[1..][i].privileges != {} then multiset(grants[1..])[grants[1..][i]] else 0
    ensures var r := if grants[0].privileges == {} then rest else [grants[0]] + rest;
            forall i :: 0 <= i < |grants| ==>
              multiset(r)[grants[i]] == if grants[i].privileges != {} then multiset(grants)[grants[i]] else 0
  {
    var g := grants[0];
    var tail := grants[1..];
    assert grants == [g] + tail;
    var r := if g.privileges == {} then rest else [g] + rest;
    forall i | 0 <= i < |grants|
      ensures multiset(r)[grants[i]] == if grants[i].privileges != {} then multiset(grants)[grants[i]] else 0
    {
      var x := grants[i];
      if x !in tail {
        assert x == g;
        assert x !in rest;
      } else {
        var k :| 0 <= k < |tail| && tail[k] == x;
        assert multiset(rest)[tail[k]] == if x.privileges != {} then multiset(tail)[x] else 0;
      }
      assert multiset(grants) == multiset{g} + multiset(tail);
      if g.privileges != {} {
        assert multiset(r) == multiset{g} + multiset(rest);
      }
    }
  }

  /** `a` is `b` with some entries removed, the rest in their original order. */
  ghost predicate IsSubsequence<T>(a: seq<T>, b: seq<T>)
    decreases |b|
  {
    if |a| == 0 then true
    else if |b| == 0 then false
    else if a[0] == b[0] then IsSubsequence(a[1..], b[1..])
    else IsSubsequence(a, b[1..])
  }

  lemma {:induction false} SubsequenceOfTail<T>(a: seq<T>, b: seq<T>)
    requires |b| > 0 && IsSubsequence(a, b[1..])
    ensures IsSubsequence(a, b)
    decreases |b|, 0
  {
    if |a| > 0 && a[0] == b[0] {
      SubsequenceDropsHead(a, b[1..]);
    }
  }

  lemma {:induction false} SubsequenceDropsHead<T>(a: seq<T>, c: seq<T>)
    requires |a| > 0 && IsSubsequence(a, c)
    ensures IsSubsequence(a[1..], c)
    decreases |c|, 1
  {
    if a[0] == c[0] {
      SubsequenceOfTail(a[1..], c);
    } else {
      SubsequenceDropsHead(a, c[1..]);
      SubsequenceOfTail(a[1..], c);
    }
  }

  /**
    `UserGrantSet::revoke_privileges`: toggle the privileges of the matching
    entries, then drop every entry, matching or not, whose privileges are empty.
   */
  function RevokePrivileges<P>(s: UserGrantSet<P>, user: string, hostPattern: string, obj: GrantObject,
                               privileges: set<P>): (r: UserGrantSet<P>)
    ensures forall i :: 0 <= i < |r.grants| ==> r.grants[i].privileges != {}
    ensures IsSubsequence(r.grants, ToggleMatching(s.grants, user, hostPattern, obj, privileges))
    ensures forall i :: (0 <= i < |s.grants| && !MatchesEntry(s.grants[i], user, hostPattern, obj)
                         && s.grants[i].privileges != {}) ==> s.grants[i] in r.grants
    ensures var toggled := ToggleMatching(s.grants, user, hostPattern, obj, privileges);
            forall i :: 0 <= i < |toggled| ==>
              multiset(r.grants)[toggled[i]] == if toggled[i].privileges != {} then multiset(toggled)[toggled[i]] else 0
  {
    var toggled := ToggleMatching(s.grants, user, hostPattern, obj, privileges);
    assert forall i :: 0 <= i < |s.grants| && !MatchesEntry(s.grants[i], user, hostPattern, obj)
                       ==> toggled[i] == s.grants[i];
    UserGrantSet(DropEmpty(toggled))
  }

  /**
    Revoking held privileges removes exactly those; revoking one the entry does
    not hold adds it. A matching entry survives with the toggled set unless that
    set is empty.
   */
  lemma RevokeToggles<P>(s: UserGrantSet<P>, user: string, hostPattern: string, obj: GrantObject,
                         privileges: set<P>, i: nat)
    requires i < |s.grants| && MatchesEntry(s.grants[i], user, hostPattern, obj)
    ensures var after := s.grants[i].(privileges := Toggle(s.grants[i].privileges, privileges));
            && (privileges <= s.grants[i].privileges ==> after.privileges == s.grants[i].privileges - privileges)
            && privileges - s.grants[i].privileges <= after.privileges
            && (after in RevokePrivileges(s, user, hostPattern, obj, privileges).grants <==> after.privileges != {})
  {
    var toggled := ToggleMatching(s.grants, user, hostPattern, obj, privileges);
    var after := toggled[i];
    assert after in toggled;
    var r := RevokePrivileges(s, user, hostPattern, obj, privileges);
    assert r.grants == DropEmpty(toggled);
  }
}
