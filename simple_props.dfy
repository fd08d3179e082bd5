/**
 Properties of the publish filter of filter/simple.go: how options are parsed
 into a filter, when no filter is built, and what each of the evaluator's four
 checks decides on its own.
 */
module SimpleFilterProps {
  import opened Wamp
  import opened SimpleFilter

  // ---------------------------------------------------------------------------
  // ID options
  // ---------------------------------------------------------------------------

  /** ID parsing distributes over concatenation: it keeps the original order. */
  lemma {:induction false} IdsOfAppend(a: seq<Value>, b: seq<Value>)
    ensures IdsOf(a + b) == IdsOf(a) + IdsOf(b)
    decreases |b|
  {
    if b == [] {
      assert a + b == a;
    } else {
      var init := b[..|b| - 1];
      assert (a + b)[..|a + b| - 1] == a + init;
      assert (a + b)[|a + b| - 1] == b[|b| - 1];
      IdsOfAppend(a, init);
    }
  }

  /** A list element is kept exactly when it converts to an ID. */
  lemma {:induction false} IdsOfMember(items: seq<Value>, id: ID)
    ensures id in IdsOf(items) <==> Id(id) in items
    decreases |items|
  {
    if items != [] {
      var init := items[..|items| - 1];
      assert items == init + [items[|items| - 1]];
      IdsOfMember(init, id);
    }
  }

  /** Elements that do not convert to an ID leave the parsed list unchanged, wherever they sit. */
  lemma IdsOfIgnoresNonIds(a: seq<Value>, junk: seq<Value>, b: seq<Value>)
    requires forall i :: 0 <= i < |junk| ==> !junk[i].Id?
    ensures IdsOf(a + junk + b) == IdsOf(a + b)
  {
    calc {
      IdsOf(a + junk + b);
      { IdsOfAppend(a + junk, b); }
      IdsOf(a + junk) + IdsOf(b);
      { IdsOfAppend(a, junk); IdsOfNone(junk); }
      IdsOf(a) + IdsOf(b);
      { IdsOfAppend(a, b); }
      IdsOf(a + b);
    }
  }

  /** Which IDs a list yields depends only on which elements it holds, not on their order or repetition. */
  lemma IdsOfSameElements(a: seq<Value>, b: seq<Value>, id: ID)
    requires forall v :: v in a <==> v in b
    ensures id in IdsOf(a) <==> id in IdsOf(b)
  {
    IdsOfMember(a, id);
    IdsOfMember(b, id);
  }

  /** A list with no ID element parses to no ID. */
  lemma {:induction false} IdsOfNone(junk: seq<Value>)
    requires forall i :: 0 <= i < |junk| ==> !junk[i].Id?
    ensures IdsOf(junk) == []
    decreases |junk|
  {
    if junk != [] {
      IdsOfNone(junk[..|junk| - 1]);
    }
  }

  /**
   The IDs an ID option yields: the convertible elements of a list, the value
   itself when it converts to an ID, and nothing otherwise.
   */
  lemma ParseIdsMember(v: Value, id: ID)
    ensures id in ParseIds(v) <==> v == Id(id) || (v.List? && Id(id) in v.items)
    ensures !v.List? && !v.Id? ==> ParseIds(v) == []
    ensures v.Id? ==> ParseIds(v) == [v.id]
  {
    if v.List? {
      IdsOfMember(v.items, id);
    }
  }

  // ---------------------------------------------------------------------------
  // Attribute options
  // ---------------------------------------------------------------------------

  /** String filtering distributes over concatenation: it keeps the original order. */
  lemma {:induction false} NonEmptyStringsAppend(a: seq<Value>, b: seq<Value>)
    ensures NonEmptyStrings(a + b) == NonEmptyStrings(a) + NonEmptyStrings(b)
    decreases |b|
  {
    if b == [] {
      assert a + b == a;
    } else {
      var init := b[..|b| - 1];
      assert (a + b)[..|a + b| - 1] == a + init;
      assert (a + b)[|a + b| - 1] == b[|b| - 1];
      NonEmptyStringsAppend(a, init);
    }
  }

  /** A list element is kept exactly when it is a non-empty string. */
  lemma {:induction false} NonEmptyStringsMember(vals: seq<Value>, s: string)
    ensures s in NonEmptyStrings(vals) <==> s != "" && Str(s) in vals
    decreases |vals|
  {
    if vals != [] {
      var init := vals[..|vals| - 1];
      assert vals == init + [vals[|vals| - 1]];
      NonEmptyStringsMember(init, s);
    }
  }

  /** The attribute map is empty exactly when no option with the prefix yields an entry. */
  lemma AttrMapEmpty(opts: Dict, prefix: string)
    ensures AttrMap(opts, prefix) == map[] <==>
      forall k :: k in opts && HasPrefix(k, prefix) ==> AttrEntry(opts[k]).None?
  {
    AttrMapOfUnfold(opts, prefix, opts.Keys);
    if AttrMap(opts, prefix) == map[] {
      forall k | k in opts && HasPrefix(k, prefix) ensures AttrEntry(opts[k]).None? {
        var attr := k[|prefix|..];
        assert prefix + attr == k;
        assert attr !in AttrMap(opts, prefix);
      }
    } else {
      var attr :| attr in AttrMap(opts, prefix);
      var k := prefix + attr;
      assert k[..|prefix|] == prefix;
      assert k in opts && HasPrefix(k, prefix) && AttrEntry(opts[k]).Some?;
    }
  }

  /** A list value keeps its non-empty strings; if none survive, the attribute is absent. */
  lemma ListAttrEntry(opts: Dict, prefix: string, attr: string, vals: seq<Value>)
    requires prefix + attr in opts && opts[prefix + attr] == List(vals)
    ensures attr in AttrMap(opts, prefix) <==> exists i :: 0 <= i < |vals| && vals[i].Str? && vals[i].s != ""
    ensures attr in AttrMap(opts, prefix) ==> AttrMap(opts, prefix)[attr] == NonEmptyStrings(vals)
  {
    var kept := NonEmptyStrings(vals);
    if exists i :: 0 <= i < |vals| && vals[i].Str? && vals[i].s != "" {
      var i :| 0 <= i < |vals| && vals[i].Str? && vals[i].s != "";
      NonEmptyStringsMember(vals, vals[i].s);
    } else if kept != [] {
      NonEmptyStringsMember(vals, kept[0]);
    }
  }

  /** A scalar string value is kept as a one-element list, even the empty string. */
  lemma ScalarAttrEntry(opts: Dict, prefix: string, attr: string, val: string)
    requires prefix + attr in opts && opts[prefix + attr] == Str(val)
    ensures attr in AttrMap(opts, prefix) && AttrMap(opts, prefix)[attr] == [val]
  {
  }

  /**
   The reserved ID keys differ, and no attribute option `exclude_<attr>` or
   `eligible_<attr>` is ever one of them, so they never become attributes.
   */
  lemma ReservedKeysAreNotAttributes()
    ensures BlacklistKey != WhitelistKey
    ensures forall attr :: BlacklistPrefix + attr != BlacklistKey && BlacklistPrefix + attr != WhitelistKey
    ensures forall attr :: WhitelistPrefix + attr != BlacklistKey && WhitelistPrefix + attr != WhitelistKey
  {
    forall attr
      ensures BlacklistPrefix + attr != BlacklistKey && BlacklistPrefix + attr != WhitelistKey
      ensures WhitelistPrefix + attr != BlacklistKey && WhitelistPrefix + attr != WhitelistKey
    {
      assert |BlacklistKey| < |BlacklistPrefix + attr| && |BlacklistKey| < |WhitelistPrefix + attr|;
      assert |WhitelistKey| < |WhitelistPrefix + attr|;
      assert WhitelistKey[1] != (BlacklistPrefix + attr)[1];
    }
  }

  // ---------------------------------------------------------------------------
  // The builder
  // ---------------------------------------------------------------------------

  /** Nothing usable in the options: no ID and no attribute entry survives parsing. */
  predicate NothingUsable(opts: Dict) {
    && ParseIds(Lookup(opts, BlacklistKey)) == []
    && ParseIds(Lookup(opts, WhitelistKey)) == []
    && (forall k :: k in opts && HasPrefix(k, BlacklistPrefix) ==> AttrEntry(opts[k]).None?)
    && (forall k :: k in opts && HasPrefix(k, WhitelistPrefix) ==> AttrEntry(opts[k]).None?)
  }

  /**
   No filter is built exactly when nothing usable survives parsing; the check
   for empty options is only a shortcut of that.
   */
  lemma BuildNoneIff(opts: Dict)
    ensures Build(opts).None? <==> NothingUsable(opts)
    ensures |opts| == 0 ==> Build(opts).None?
  {
    AttrMapEmpty(opts, BlacklistPrefix);
    AttrMapEmpty(opts, WhitelistPrefix);
  }

  /**
   A built filter satisfies the filter invariant, and it requires the lock
   exactly when some attribute option yields an entry.
   */
  lemma BuildValid(opts: Dict)
    ensures Build(opts).Some? ==> Build(opts).value.Valid()
    ensures Build(opts).Some? ==>
      (Build(opts).value.LockRequired() <==>
        exists k :: k in opts && (HasPrefix(k, BlacklistPrefix) || HasPrefix(k, WhitelistPrefix)) && AttrEntry(opts[k]).Some?)
  {
    AttrMapEmpty(opts, BlacklistPrefix);
    AttrMapEmpty(opts, WhitelistPrefix);
  }

  // ---------------------------------------------------------------------------
  // The evaluator
  // ---------------------------------------------------------------------------

  /** A blacklisted session ID is denied, whatever the whitelist and attributes say. */
  lemma BlacklistedIdDenied(f: Filter, sub: Session)
    requires sub.id in f.blIDs
    ensures !f.Allowed(sub)
  {
  }

  /** A non-empty ID whitelist denies every session ID it does not contain. */
  lemma WhitelistMissDenied(f: Filter, sub: Session)
    requires f.wlIDs != [] && sub.id !in f.wlIDs
    ensures !f.Allowed(sub)
  {
  }

  /** An empty ID whitelist imposes no restriction: all non-blacklisted IDs are treated alike. */
  lemma EmptyWhitelistNoRestriction(f: Filter, sub: Session, other: ID)
    requires f.wlIDs == []
    requires sub.id !in f.blIDs && other !in f.blIDs
    ensures f.Allowed(sub) <==> f.Allowed(Session(other, sub.details))
  {
    var sub' := Session(other, sub.details);
    assert forall attr :: SessionAttr(sub, attr) == SessionAttr(sub', attr);
  }

  /**
   A blacklisted attribute whose session value is missing, not a string or
   empty never causes a deny: the filter decides as if it were not there.
   */
  lemma BlacklistAttrAbsentNeverDenies(f: Filter, sub: Session, attr: string)
    requires attr in f.blMap && SessionAttr(sub, attr) == ""
    ensures f.Allowed(sub) <==> f.(blMap := f.blMap - {attr}).Allowed(sub)
  {
  }

  /** A session value equal to a listed value of a blacklisted attribute causes a deny. */
  lemma BlacklistAttrMatchDenies(f: Filter, sub: Session, attr: string, i: nat)
    requires attr in f.blMap && i < |f.blMap[attr]|
    requires SessionAttr(sub, attr) == f.blMap[attr][i] != ""
    ensures !f.Allowed(sub)
  {
  }

  /** A whitelisted attribute whose session value is missing, not a string or empty denies. */
  lemma WhitelistAttrAbsentDenied(f: Filter, sub: Session, attr: string)
    requires attr in f.wlMap && SessionAttr(sub, attr) == ""
    ensures !f.Allowed(sub)
  {
  }

  /** A session value that matches none of a whitelisted attribute's values denies. */
  lemma WhitelistAttrMismatchDenied(f: Filter, sub: Session, attr: string)
    requires attr in f.wlMap && SessionAttr(sub, attr) !in f.wlMap[attr]
    ensures !f.Allowed(sub)
  {
  }

  /**
   An empty string detail is treated exactly like a missing one: it cannot
   match a blacklist and cannot satisfy a whitelist.
   */
  lemma EmptyDetailIsAbsent(f: Filter, id: ID, details: Dict, attr: string)
    ensures f.Allowed(Session(id, details[attr := Str("")])) <==> f.Allowed(Session(id, details - {attr}))
  {
    var s1 := Session(id, details[attr := Str("")]);
    var s2 := Session(id, details - {attr});
    forall a ensures SessionAttr(s1, a) == SessionAttr(s2, a) {
      if a != attr {
        assert Lookup(s1.details, a) == Lookup(s2.details, a);
      }
    }
  }

  /**
   A filter that needs no lock reads only the session ID: sessions with the
   same ID are treated alike, whatever their details.
   */
  lemma IdOnlyFilterIgnoresDetails(f: Filter, id: ID, d1: Dict, d2: Dict)
    requires f.Valid() && !f.LockRequired()
    ensures f.Allowed(Session(id, d1)) <==> f.Allowed(Session(id, d2))
  {
  }

  // ---------------------------------------------------------------------------
  // The empty-string quirks of scalar attribute options
  // ---------------------------------------------------------------------------

  /** `eligible_<attr>: ""` is stored as `[""]`, which no session can match: every session is denied. */
  lemma EligibleEmptyStringDeniesAll(opts: Dict, attr: string, sub: Session)
    requires WhitelistPrefix + attr in opts && opts[WhitelistPrefix + attr] == Str("")
    ensures Build(opts).Some?
    ensures !Build(opts).value.Allowed(sub)
  {
    ScalarAttrEntry(opts, WhitelistPrefix, attr, "");
    assert |opts| != 0 by {
      assert WhitelistPrefix + attr in opts.Keys;
    }
  }

  /** `exclude_<attr>: ""` is stored as `[""]`, which never denies any session. */
  lemma ExcludeEmptyStringNeverDenies(opts: Dict, attr: string, sub: Session)
    requires BlacklistPrefix + attr in opts && opts[BlacklistPrefix + attr] == Str("")
    ensures Build(opts).Some?
    ensures var f := Build(opts).value;
      f.Allowed(sub) <==> f.(blMap := f.blMap - {attr}).Allowed(sub)
  {
    ScalarAttrEntry(opts, BlacklistPrefix, attr, "");
    assert |opts| != 0 by {
      assert BlacklistPrefix + attr in opts.Keys;
    }
  }

  // ---------------------------------------------------------------------------
  // Worked examples
  // ---------------------------------------------------------------------------

  /** Options with a single attribute option build the one-entry attribute map. */
  lemma SingleAttrOption(opts: Dict, prefix: string, attr: string, vs: seq<string>)
    requires opts.Keys == {prefix + attr}
    requires AttrEntry(opts[prefix + attr]) == Some(vs)
    ensures AttrMap(opts, prefix) == map[attr := vs]
  {
    forall a ensures a in AttrMap(opts, prefix) <==> a == attr {
      if prefix + a == prefix + attr {
        assert a == (prefix + a)[|prefix|..];
      }
    }
  }

  /** A list of two IDs parses to those two IDs. */
  lemma TwoIds(a: ID, b: ID)
    ensures IdsOf([Id(a), Id(b)]) == [a, b]
  {
    var items := [Id(a), Id(b)];
    assert items[..1] == [Id(a)] && [Id(a)][..0] == [];
  }

  /** Options none of whose keys carries the prefix build an empty attribute map. */
  lemma NoAttrOption(opts: Dict, prefix: string)
    requires forall k :: k in opts ==> !HasPrefix(k, prefix)
    ensures AttrMap(opts, prefix) == map[]
  {
    AttrMapEmpty(opts, prefix);
  }

  /** A list of two non-empty strings is kept as it is. */
  lemma TwoStrings(x: string, y: string)
    requires x != "" && y != ""
    ensures NonEmptyStrings([Str(x), Str(y)]) == [x, y]
  {
    var vals := [Str(x), Str(y)];
    assert vals[..1] == [Str(x)] && [Str(x)][..0] == [];
  }

  /** Options whose only key is `exclude_<attr>` build an attribute blacklist alone. */
  lemma BlacklistAttrOnly(opts: Dict, attr: string, vs: seq<string>)
    requires opts.Keys == {BlacklistPrefix + attr}
    requires AttrEntry(opts[BlacklistPrefix + attr]) == Some(vs)
    ensures Build(opts) == Some(Filter([], [], map[attr := vs], map[], true))
  {
    SingleAttrOption(opts, BlacklistPrefix, attr, vs);
    assert (BlacklistPrefix + attr)[1] != WhitelistPrefix[1];
    NoAttrOption(opts, WhitelistPrefix);
    assert |BlacklistKey| < |BlacklistPrefix + attr| && WhitelistKey[1] != (BlacklistPrefix + attr)[1];
    assert Lookup(opts, BlacklistKey) == Absent && Lookup(opts, WhitelistKey) == Absent;
    assert BlacklistPrefix + attr in opts.Keys;
  }

  /** Options whose only key is `eligible_<attr>` build an attribute whitelist alone. */
  lemma WhitelistAttrOnly(opts: Dict, attr: string, vs: seq<string>)
    requires opts.Keys == {WhitelistPrefix + attr}
    requires AttrEntry(opts[WhitelistPrefix + attr]) == Some(vs)
    ensures Build(opts) == Some(Filter([], [], map[], map[attr := vs], true))
  {
    SingleAttrOption(opts, WhitelistPrefix, attr, vs);
    assert (WhitelistPrefix + attr)[1] != BlacklistPrefix[1];
    NoAttrOption(opts, BlacklistPrefix);
    assert |BlacklistKey| < |WhitelistPrefix + attr| && |WhitelistKey| < |WhitelistPrefix + attr|;
    assert Lookup(opts, BlacklistKey) == Absent && Lookup(opts, WhitelistKey) == Absent;
    assert WhitelistPrefix + attr in opts.Keys;
  }

  /** `exclude_role: "guest"` denies guests and admits admins and sessions without a role. */
  lemma ExcludeRoleExample(opts: Dict, id: ID)
    requires opts == map[BlacklistPrefix + "role" := Str("guest")]
    ensures Build(opts) == Some(Filter([], [], map["role" := ["guest"]], map[], true))
    ensures !Build(opts).value.Allowed(Session(id, map["role" := Str("guest")]))
    ensures Build(opts).value.Allowed(Session(id, map["role" := Str("admin")]))
    ensures Build(opts).value.Allowed(Session(id, map[]))
  {
    BlacklistAttrOnly(opts, "role", ["guest"]);
    assert SessionAttr(Session(id, map["role" := Str("guest")]), "role") == "guest";
    assert SessionAttr(Session(id, map["role" := Str("admin")]), "role") == "admin";
    assert SessionAttr(Session(id, map[]), "role") == "";
  }

  /** `eligible_region: ["us", "eu"]` admits "us" and denies "ap" and sessions without a region. */
  lemma EligibleRegionExample(opts: Dict, id: ID)
    requires opts == map[WhitelistPrefix + "region" := List([Str("us"), Str("eu")])]
    ensures Build(opts) == Some(Filter([], [], map[], map["region" := ["us", "eu"]], true))
    ensures Build(opts).value.Allowed(Session(id, map["region" := Str("us")]))
    ensures !Build(opts).value.Allowed(Session(id, map["region" := Str("ap")]))
    ensures !Build(opts).value.Allowed(Session(id, map[]))
  {
    TwoStrings("us", "eu");
    WhitelistAttrOnly(opts, "region", ["us", "eu"]);
    assert SessionAttr(Session(id, map["region" := Str("us")]), "region") == "us";
    assert SessionAttr(Session(id, map["region" := Str("ap")]), "region") == "ap";
    assert SessionAttr(Session(id, map[]), "region") == "";
  }

  /** Options holding only the reserved ID keys build a filter of the parsed ID lists alone. */
  lemma IdOptionsOnly(opts: Dict, bl: seq<ID>, wl: seq<ID>)
    requires forall k :: k in opts ==> k == BlacklistKey || k == WhitelistKey
    requires ParseIds(Lookup(opts, BlacklistKey)) == bl && ParseIds(Lookup(opts, WhitelistKey)) == wl
    requires bl != [] || wl != []
    ensures Build(opts) == Some(Filter(bl, wl, map[], map[], false))
  {
    ReservedKeysAreNotAttributes();
    NoAttrOption(opts, BlacklistPrefix);
    NoAttrOption(opts, WhitelistPrefix);
    if bl != [] {
      assert BlacklistKey in opts.Keys;
    } else {
      assert WhitelistKey in opts.Keys;
    }
  }

  /** A whitelist of IDs 101 and 102 admits session 101 and denies session 103. */
  lemma WhitelistIdsExample(opts: Dict, details: Dict)
    requires opts == map[WhitelistKey := List([Id(101), Id(102)])]
    ensures Build(opts) == Some(Filter([], [101, 102], map[], map[], false))
    ensures Build(opts).value.Allowed(Session(101, details))
    ensures !Build(opts).value.Allowed(Session(103, details))
  {
    TwoIds(101, 102);
    IdOptionsOnly(opts, [], [101, 102]);
  }

  /** Session 5, both blacklisted and whitelisted, is denied: the blacklist is checked first. */
  lemma BlacklistBeatsWhitelistExample(opts: Dict, details: Dict)
    requires opts == map[BlacklistKey := List([Id(5)]), WhitelistKey := List([Id(5), Id(6)])]
    ensures Build(opts) == Some(Filter([5], [5, 6], map[], map[], false))
    ensures !Build(opts).value.Allowed(Session(5, details))
    ensures Build(opts).value.Allowed(Session(6, details))
  {
    TwoIds(5, 6);
    assert IdsOf([Id(5)]) == [5] by {
      assert [Id(5)][..0] == [];
    }
    IdOptionsOnly(opts, [5], [5, 6]);
  }
}
