/**
 The publish-time subscriber filter of filter/simple.go: black- and
 whitelisting of subscriber sessions by session ID and by session attribute.

 `Build` and `Filter.Allowed` are the specification; `NewSimplePublishFilter`
 and `Filter.PublishAllowed` follow the Go code loop by loop and are proved
 to compute them, for every iteration order of the Go maps involved.
 */
module SimpleFilter {
  import opened Wamp

  /** Options of the form `exclude_<attr>` blacklist attribute values. */
  const BlacklistPrefix: string := "exclude_"
  /** Options of the form `eligible_<attr>` whitelist attribute values. */
  const WhitelistPrefix: string := "eligible_"

  /** Go's `strings.HasPrefix`. */
  predicate HasPrefix(k: string, prefix: string): (r: bool)
    ensures r <==> |prefix| <= |k| && k == prefix + k[|prefix|..]
  {
    |prefix| <= |k| && k[..|prefix|] == prefix
  }

  // ---------------------------------------------------------------------------
  // Specification of the builder
  // ---------------------------------------------------------------------------

  /** The IDs of the elements of `items` that convert to an ID, in order. */
  function IdsOf(items: seq<Value>): (ids: seq<ID>)
    ensures |ids| <= |items|
    ensures forall i :: 0 <= i < |ids| ==> Id(ids[i]) in items
  {
    if items == [] then []
    else
      var last := items[|items| - 1];
      IdsOf(items[..|items| - 1]) + (if last.Id? then [last.id] else [])
  }

  /** The ID list an ID option (blacklist or whitelist key) contributes. */
  function ParseIds(v: Value): (ids: seq<ID>)
    ensures !v.List? && !v.Id? ==> ids == []
    ensures forall i :: 0 <= i < |ids| ==> v == Id(ids[i]) || (v.List? && Id(ids[i]) in v.items)
  {
    match AsList(v)
    case Some(items) => IdsOf(items)
    case None =>
      match AsID(v)
      case Some(id) => [id]
      case None => []
  }

  /** The non-empty string elements of `vals`, in order. */
  function NonEmptyStrings(vals: seq<Value>): (r: seq<string>)
    ensures |r| <= |vals|
    ensures forall i :: 0 <= i < |r| ==> r[i] != ""
  {
    if vals == [] then []
    else
      var last := vals[|vals| - 1];
      NonEmptyStrings(vals[..|vals| - 1]) + (if last.Str? && last.s != "" then [last.s] else [])
  }

  /**
   The value list one attribute option contributes, or `None` when the option
   adds no entry to the attribute map. A list keeps its non-empty strings and
   adds no entry when none survive; a scalar string is kept as it is, even the
   empty string.
   */
  function AttrEntry(v: Value): (r: Option<seq<string>>)
    ensures r.Some? ==> r.value != []
    ensures v.List? ==> (r.Some? <==> NonEmptyStrings(v.items) != [])
    ensures !v.List? ==> (r.Some? <==> v.Str?)
  {
    match AsList(v)
    case Some(vals) =>
      var vallist := NonEmptyStrings(vals);
      if |vallist| != 0 then Some(vallist) else None
    case None =>
      match AsString(v)
      case Some(val) => Some([val])
      case None => None
  }

  /** The attribute names that the options among `keys` contribute. */
  function AttrNames(opts: Dict, prefix: string, keys: set<string>): set<string> {
    set k | k in keys && k in opts && HasPrefix(k, prefix) && AttrEntry(opts[k]).Some? :: k[|prefix|..]
  }

  /** The attribute map built from the options among `keys` that carry `prefix`. */
  function AttrMapOf(opts: Dict, prefix: string, keys: set<string>): map<string, seq<string>> {
    map attr | attr in AttrNames(opts, prefix, keys) && prefix + attr in opts && AttrEntry(opts[prefix + attr]).Some?
      :: AttrEntry(opts[prefix + attr]).value
  }

  /** The attribute map built from all options carrying `prefix`. */
  function AttrMap(opts: Dict, prefix: string): (m: map<string, seq<string>>)
    ensures forall attr :: attr in m <==> prefix + attr in opts && AttrEntry(opts[prefix + attr]).Some?
    ensures forall attr :: attr in m ==> m[attr] == AttrEntry(opts[prefix + attr]).value && m[attr] != []
  {
    AttrMapOfUnfold(opts, prefix, opts.Keys);
    AttrMapOf(opts, prefix, opts.Keys)
  }

  /**
   The filter a set of publish options asks for, or `None` when the options
   are empty or nothing usable survives parsing.
   */
  function Build(opts: Dict): (f: Option<Filter>)
    ensures |opts| == 0 ==> f.None?
    ensures f.Some? ==> f.value.Valid()
  {
    if |opts| == 0 then None
    else
      var blIDs := ParseIds(Lookup(opts, BlacklistKey));
      var wlIDs := ParseIds(Lookup(opts, WhitelistKey));
      var blMap := AttrMap(opts, BlacklistPrefix);
      var wlMap := AttrMap(opts, WhitelistPrefix);
      if blIDs == [] && wlIDs == [] && blMap == map[] && wlMap == map[] then None
      else Some(Filter(blIDs, wlIDs, blMap, wlMap, blMap != map[] || wlMap != map[]))
  }

  // ---------------------------------------------------------------------------
  // Specification of the evaluator
  // ---------------------------------------------------------------------------

  /**
   The session's attribute `attr` as a string, with Go's zero value "" when
   the detail is missing or is not a string.
   */
  function SessionAttr(sub: Session, attr: string): (sessAttr: string)
    ensures Lookup(sub.details, attr).Str? ==> sessAttr == Lookup(sub.details, attr).s
    ensures !Lookup(sub.details, attr).Str? ==> sessAttr == ""
  {
    match AsString(Lookup(sub.details, attr))
    case Some(s) => s
    case None => ""
  }

  /** A session attribute value matches a list: it is present (non-empty) and listed. */
  predicate Matches(sessAttr: string, vals: seq<string>) {
    sessAttr != "" && sessAttr in vals
  }

  /** The filter of one publication; never changed once built. */
  datatype Filter = Filter(
    blIDs: seq<ID>,
    wlIDs: seq<ID>,
    blMap: map<string, seq<string>>,
    wlMap: map<string, seq<string>>,
    lockRequired: bool)
  {
    /** What every filter the builder returns satisfies. */
    ghost predicate Valid() {
      && (blIDs != [] || wlIDs != [] || blMap != map[] || wlMap != map[])
      && (lockRequired <==> blMap != map[] || wlMap != map[])
      && (forall attr :: attr in blMap ==> blMap[attr] != [])
      && (forall attr :: attr in wlMap ==> wlMap[attr] != [])
    }

    /** Whether the filter reads session details, which the broker must keep stable. */
    function LockRequired(): (r: bool)
      ensures Valid() ==> (r <==> blMap != map[] || wlMap != map[])
    {
      lockRequired
    }

    /** The session ID is not blacklisted. */
    predicate IdNotBlacklisted(sub: Session) {
      sub.id !in blIDs
    }

    /** The session ID is whitelisted, or there is no ID whitelist. */
    predicate IdWhitelisted(sub: Session) {
      |wlIDs| != 0 ==> sub.id in wlIDs
    }

    /** No attribute of the session matches its blacklist. */
    predicate NoAttrBlacklisted(sub: Session) {
      forall attr :: attr in blMap ==> !Matches(SessionAttr(sub, attr), blMap[attr])
    }

    /** Every whitelisted attribute of the session matches its whitelist. */
    predicate AllAttrsWhitelisted(sub: Session) {
      forall attr :: attr in wlMap ==> Matches(SessionAttr(sub, attr), wlMap[attr])
    }

    /** A publication reaches the session exactly when all four checks pass. */
    predicate Allowed(sub: Session) {
      IdNotBlacklisted(sub) && IdWhitelisted(sub) && NoAttrBlacklisted(sub) && AllAttrsWhitelisted(sub)
    }

    /**
     Decides whether the publication may be delivered to `sub`: ID blacklist,
     then ID whitelist, then attribute blacklists, then attribute whitelists,
     each returning early on a deny. The attribute maps are visited in an
     arbitrary order, as Go's map iteration does.
     */
    method PublishAllowed(sub: Session) returns (allowed: bool)
      ensures allowed <==> Allowed(sub)
    {
      var i := 0;
      while i < |blIDs|
        invariant 0 <= i <= |blIDs|
        invariant sub.id !in blIDs[..i]
      {
        if blIDs[i] == sub.id {
          return false;
        }
        i := i + 1;
      }
      assert blIDs[..i] == blIDs;

      var eligible := false;
      if |wlIDs| != 0 {
        var j := 0;
        while j < |wlIDs|
          invariant 0 <= j <= |wlIDs|
          invariant eligible <==> sub.id in wlIDs[..j]
          invariant !eligible
        {
          if wlIDs[j] == sub.id {
            eligible := true;
            assert wlIDs[..j + 1] == wlIDs[..j] + [wlIDs[j]];
            break;
          }
          j := j + 1;
        }
        if !eligible {
          assert wlIDs[..j] == wlIDs;
          return false;
        }
      }

      var blPending := blMap.Keys;
      while blPending != {}
        invariant blPending <= blMap.Keys
        invariant forall attr :: attr in blMap && attr !in blPending ==>
          !Matches(SessionAttr(sub, attr), blMap[attr])
        decreases blPending
      {
        var attr :| attr in blPending;
        blPending := blPending - {attr};
        var vals := blMap[attr];
        var sessAttr := SessionAttr(sub, attr);
        if sessAttr == "" {
          continue;
        }
        var k := 0;
        while k < |vals|
          invariant 0 <= k <= |vals|
          invariant sessAttr !in vals[..k]
        {
          if vals[k] == sessAttr {
            return false;
          }
          k := k + 1;
        }
        assert vals[..k] == vals;
      }

      var wlPending := wlMap.Keys;
      while wlPending != {}
        invariant wlPending <= wlMap.Keys
        invariant forall attr :: attr in wlMap && attr !in wlPending ==>
          Matches(SessionAttr(sub, attr), wlMap[attr])
        decreases wlPending
      {
        var attr :| attr in wlPending;
        wlPending := wlPending - {attr};
        var vals := wlMap[attr];
        var sessAttr := SessionAttr(sub, attr);
        if sessAttr == "" {
          return false;
        }
        eligible := false;
        var k := 0;
        while k < |vals|
          invariant 0 <= k <= |vals|
          invariant eligible <==> sessAttr in vals[..k]
          invariant !eligible
        {
          if vals[k] == sessAttr {
            eligible := true;
            assert vals[..k + 1] == vals[..k] + [vals[k]];
            break;
          }
          k := k + 1;
        }
        if !eligible {
          assert vals[..k] == vals;
          return false;
        }
      }
      return true;
    }
  }

  // ---------------------------------------------------------------------------
  // The builder, as the Go code computes it
  // ---------------------------------------------------------------------------

  /**
   Collects the IDs of an ID option: the convertible elements of a list, or
   the value itself when it converts to an ID.
   */
  method CollectIds(v: Value) returns (ids: seq<ID>)
    ensures ids == ParseIds(v)
  {
    ids := [];
    match AsList(v)
    case Some(items) =>
      var i := 0;
      while i < |items|
        invariant 0 <= i <= |items|
        invariant ids == IdsOf(items[..i])
      {
        assert items[..i + 1][..i] == items[..i];
        match AsID(items[i]) {
          case Some(id) => ids := ids + [id];
          case None =>
        }
        i := i + 1;
      }
      assert items[..i] == items;
    case None =>
      match AsID(v)
      case Some(id) =>
        ids := ids + [id];
      case None =>
  }

  /**
   Builds the attribute map of all options carrying `prefix`, visiting the
   options in an arbitrary order, as Go's map iteration does.
   */
  method GetAttrMap(opts: Dict, prefix: string) returns (attrMap: map<string, seq<string>>)
    ensures attrMap == AttrMap(opts, prefix)
  {
    attrMap := map[];
    var visited: set<string> := {};
    AttrMapOfUnfold(opts, prefix, {});
    while opts.Keys - visited != {}
      invariant visited <= opts.Keys
      invariant attrMap == AttrMapOf(opts, prefix, visited)
      decreases opts.Keys - visited
    {
      var k :| k in opts.Keys - visited;
      var values := opts[k];
      AttrMapOfStep(opts, prefix, visited, k);
      visited := visited + {k};
      if !HasPrefix(k, prefix) {
        continue;
      }
      match AsList(values)
      case Some(vals) =>
        var vallist: seq<string> := [];
        var i := 0;
        while i < |vals|
          invariant 0 <= i <= |vals|
          invariant vallist == NonEmptyStrings(vals[..i])
        {
          assert vals[..i + 1][..i] == vals[..i];
          match AsString(vals[i]) {
            case Some(val) =>
              if val != "" {
                vallist := vallist + [val];
              }
            case None =>
          }
          i := i + 1;
        }
        assert vals[..i] == vals;
        if |vallist| != 0 {
          var attrName := k[|prefix|..];
          attrMap := attrMap[attrName := vallist];
        }
      case None =>
        match AsString(values)
        case Some(val) =>
          var attrName := k[|prefix|..];
          attrMap := attrMap[attrName := [val]];
        case None =>
    }
  }

  /**
   Reads the black- and whitelists of a PUBLISH message's options; `None`
   when the options define no filter.
   */
  method NewSimplePublishFilter(opts: Dict) returns (f: Option<Filter>)
    ensures f == Build(opts)
    ensures f.Some? ==> f.value.Valid()
  {
    if |opts| == 0 {
      return None;
    }
    var blIDs := CollectIds(Lookup(opts, BlacklistKey));
    var wlIDs := CollectIds(Lookup(opts, WhitelistKey));
    var blMap := GetAttrMap(opts, BlacklistPrefix);
    var wlMap := GetAttrMap(opts, WhitelistPrefix);
    if blIDs == [] && wlIDs == [] && blMap == map[] && wlMap == map[] {
      return None;
    }
    f := Some(Filter(blIDs, wlIDs, blMap, wlMap, |blMap| != 0 || |wlMap| != 0));
  }

  // ---------------------------------------------------------------------------
  // Lemmas the builder's proof rests on
  // ---------------------------------------------------------------------------

  /** Membership in `AttrMapOf`, stated on the option key `prefix + attr`. */
  lemma AttrMapOfUnfold(opts: Dict, prefix: string, keys: set<string>)
    ensures forall attr :: attr in AttrMapOf(opts, prefix, keys) <==>
      (prefix + attr in keys && prefix + attr in opts && AttrEntry(opts[prefix + attr]).Some?)
    ensures forall attr :: attr in AttrMapOf(opts, prefix, keys) ==>
      AttrMapOf(opts, prefix, keys)[attr] == AttrEntry(opts[prefix + attr]).value
  {
    forall attr
      ensures attr in AttrMapOf(opts, prefix, keys) <==>
        (prefix + attr in keys && prefix + attr in opts && AttrEntry(opts[prefix + attr]).Some?)
    {
      var k := prefix + attr;
      if k in keys && k in opts && AttrEntry(opts[k]).Some? {
        assert k[..|prefix|] == prefix;
        assert k[|prefix|..] == attr;
        assert attr in AttrNames(opts, prefix, keys);
      }
      if attr in AttrNames(opts, prefix, keys) {
        var k' :| k' in keys && k' in opts && HasPrefix(k', prefix) && AttrEntry(opts[k']).Some? && k'[|prefix|..] == attr;
        assert k' == k'[..|prefix|] + k'[|prefix|..];
        assert k' == k;
      }
    }
  }

  /** Visiting one more option key updates the attribute map as the Go loop does. */
  lemma AttrMapOfStep(opts: Dict, prefix: string, keys: set<string>, k: string)
    requires k in opts
    ensures var entry := AttrEntry(opts[k]);
      AttrMapOf(opts, prefix, keys + {k}) ==
        if HasPrefix(k, prefix) && entry.Some?
        then AttrMapOf(opts, prefix, keys)[k[|prefix|..] := entry.value]
        else AttrMapOf(opts, prefix, keys)
  {
    AttrMapOfUnfold(opts, prefix, keys);
    AttrMapOfUnfold(opts, prefix, keys + {k});
    var entry := AttrEntry(opts[k]);
    var before := AttrMapOf(opts, prefix, keys);
    var after := AttrMapOf(opts, prefix, keys + {k});
    if HasPrefix(k, prefix) {
      var name := k[|prefix|..];
      assert prefix + name == k;
      forall attr ensures prefix + attr == k <==> attr == name {
        if prefix + attr == k {
          assert attr == (prefix + attr)[|prefix|..];
        }
      }
      if entry.Some? {
        assert after == before[name := entry.value];
      } else {
        assert after == before;
      }
    } else {
      forall attr ensures prefix + attr != k {
        assert (prefix + attr)[..|prefix|] == prefix;
      }
      assert after == before;
    }
  }
}
