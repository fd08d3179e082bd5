# Publish filter for subscriber black- and whitelisting

This project models the publish-time subscriber filter of a WAMP router
(filter/simple.go). It implements, and generalises, the "Subscriber Black- and
Whitelisting" feature of the WAMP Advanced Profile. A PUBLISH message's
options may name session IDs to exclude or to admit exclusively, and may
carry any number of `exclude_<attr>` and `eligible_<attr>` options that
compare against a subscriber session's details. The filter has two parts:

- **Builder** (`NewSimplePublishFilter`). It reads the untyped options
  dictionary and returns either no filter or an immutable filter. That filter
  holds an ID blacklist, an ID whitelist, two attribute maps from attribute
  name to a list of string values, and a flag saying whether evaluation reads
  session details. Malformed entries are dropped silently, never rejected.
- **Evaluator** (`PublishAllowed`). It decides whether one subscriber session
  receives the event. The checks run in this order, each denying early: ID
  blacklist, ID whitelist, attribute blacklists, attribute whitelists.

Files:

- `wamp.dfy`, module `Wamp`: the parts of the nexus library the filter uses,
  seen only at their interface. This covers dynamically typed values (`Value`,
  with `Absent` standing for Go's `nil`), the selectors `AsID`, `AsList` and
  `AsString`, the reserved option keys, and a session as `(id, details)`.
- `simple.dfy`, module `SimpleFilter`: the specification (`Build`,
  `Filter.Allowed`) and the Go code as imperative Dafny. The methods
  `CollectIds`, `GetAttrMap`, `NewSimplePublishFilter` and
  `Filter.PublishAllowed` use the same loops, appends, `continue`s and early
  returns as the source. Each is proved to compute the specification.
- `simple_props.dfy`, module `SimpleFilterProps`: the properties of the
  specification, and worked examples.

The filter is a Dafny `datatype`, not a class. The Go struct is never changed
after construction; `LockRequired` and `PublishAllowed` are members of that
datatype. Go iterates over maps in a random order. The methods that loop over
a map (the options in `GetAttrMap`, the attribute maps in `PublishAllowed`)
therefore take the next key by an arbitrary choice (`:|`). Their
postconditions hold for every visiting order, so the result does not depend
on the order.

Two quirks of the code are kept and proved:

- An empty scalar string option (`eligible_x: ""`) is stored as `[""]`. The
  list branch drops empty strings; the scalar branch does not.
- A session detail equal to `""` reads as absent.

As a result, `eligible_x: ""` denies every session, and `exclude_x: ""` never
denies (`EligibleEmptyStringDeniesAll`, `ExcludeEmptyStringNeverDenies`).

The Go code names the reserved ID keys only through the nexus constants
`wamp.BlacklistKey` and `wamp.WhitelistKey`, whose values are not part of this
model. The model gives them the WAMP Advanced Profile names `"exclude"` and
`"eligible"`. It depends only on two facts: the two keys differ, and no
`exclude_<attr>` or `eligible_<attr>` option is ever one of them
(`ReservedKeysAreNotAttributes`).

## Model

| member | source | states |
|---|---|---|
| `Wamp.Lookup` | filter/simple.go:131-131 | Go's map read `sub.Details[attr]` (also `opts[...]` at lines 32-49 and line 147): a present key yields its value, a missing key yields `nil` |
| `Wamp.AsID` | filter/simple.go:34-34 | `wamp.AsID` (also lines 38, 45 and 49): succeeds exactly on an ID value and returns that ID |
| `Wamp.AsList` | filter/simple.go:32-32 | `wamp.AsList` (also lines 43 and 59): succeeds exactly on a list value and returns its elements |
| `Wamp.AsString` | filter/simple.go:62-62 | `wamp.AsString` (also lines 73, 131 and 147): succeeds exactly on a string value and returns that string |
| `SimpleFilterProps.NothingUsable` | filter/simple.go:87-87 | The all-`nil` test over the options: neither ID key yields an ID and no prefixed option yields an attribute entry |
| `SimpleFilter.HasPrefix` | filter/simple.go:56-56 | `strings.HasPrefix`: the key is at least as long as the prefix and is the prefix followed by the rest of the key |
| `SimpleFilter.IdsOf` | filter/simple.go:33-37 | The element loop over an ID list (also lines 44-48) keeps at most as many IDs as there are elements, and every kept ID is an `Id` element of the list |
| `SimpleFilter.ParseIds` | filter/simple.go:31-51 | An ID option yields only IDs that it is or that its list holds; a value that is neither a list nor an ID yields nothing |
| `SimpleFilter.AttrMap` | filter/simple.go:53-82 | The closed form of `getAttrMap`: `attr` is in the map iff the option `prefix + attr` exists and its value yields an entry; the stored list is that entry and is never empty |
| `SimpleFilter.Build` | filter/simple.go:21-91 | The builder's specification: empty options give no filter, and every filter it gives is `Valid` |
| `SimpleFilter.SessionAttr` | filter/simple.go:131-131 | `wamp.AsString(sub.Details[attr])` with the error ignored (also line 147): a string detail reads as itself; a missing or non-string detail reads as `""` |
| `SimpleFilter.AttrMapOf` | filter/simple.go:53-82 | The attribute map built from a subset of the option keys: what `getAttrMap` holds after visiting those keys |
| `SimpleFilter.Matches` | filter/simple.go:132-141 | A session value matches a value list iff it is non-empty and listed |
| `SimpleFilter.Filter.Valid` | filter/simple.go:87-90 | The filter invariant: some criterion is non-empty, `lockRequired` iff an attribute map is non-empty, no attribute maps to an empty list |
| `SimpleFilter.Filter.IdNotBlacklisted` | filter/simple.go:107-112 | The session ID does not occur in the ID blacklist |
| `SimpleFilter.Filter.IdWhitelisted` | filter/simple.go:114-126 | The ID whitelist is empty or holds the session ID |
| `SimpleFilter.Filter.NoAttrBlacklisted` | filter/simple.go:128-142 | For every blacklisted attribute, the session value does not match its list |
| `SimpleFilter.Filter.AllAttrsWhitelisted` | filter/simple.go:144-165 | For every whitelisted attribute, the session value matches its list |
| `SimpleFilter.Filter.Allowed` | filter/simple.go:106-167 | The evaluator's specification: the conjunction of the four checks |
| `SimpleFilter.NewSimplePublishFilter` | filter/simple.go:21-91 | The builder returns `Build(opts)` for every iteration order of the options map, and every filter it returns is `Valid`: at least one criterion is non-empty, `lockRequired` holds iff an attribute map is non-empty, and no attribute maps to an empty list |
| `SimpleFilter.CollectIds` | filter/simple.go:31-51 | The append loop over an ID option computes `ParseIds`: the ID-convertible elements of a list, the value itself if it converts to an ID, otherwise nothing |
| `SimpleFilter.GetAttrMap` | filter/simple.go:53-82 | The `getAttrMap` closure computes `AttrMap(opts, prefix)`, whatever order it visits the options in |
| `SimpleFilter.NonEmptyStrings` | filter/simple.go:60-65 | Filtering a list value keeps at most its length and only non-empty strings |
| `SimpleFilter.AttrEntry` | filter/simple.go:59-79 | An attribute option never contributes an empty value list; a list contributes an entry iff some non-empty string survives, and any other value iff it is a string |
| `SimpleFilter.AttrMapOfUnfold` | filter/simple.go:55-79 | An attribute is in the map built from a set of keys iff `prefix + attr` is among them and its value yields an entry; the stored list is that entry |
| `SimpleFilter.AttrMapOfStep` | filter/simple.go:55-80 | Visiting one more option key adds `key[len(prefix):] -> entry` when the key has the prefix and yields an entry, and leaves the map unchanged otherwise |
| `SimpleFilter.Filter.LockRequired` | filter/simple.go:95-97 | On a valid filter, the flag is true iff an attribute map is non-empty |
| `SimpleFilter.Filter.PublishAllowed` | filter/simple.go:106-167 | The loops with early returns and the `eligible` flag return true iff all four checks of `Allowed` pass (ID not blacklisted; ID whitelisted or no ID whitelist; no attribute blacklist matched; every attribute whitelist matched), for every order of map iteration |
| `SimpleFilterProps.IdsOfAppend` | filter/simple.go:33-37 | ID parsing of a list distributes over concatenation, so it keeps the original order |
| `SimpleFilterProps.IdsOfMember` | filter/simple.go:33-37 | An ID is in the parsed list iff the list holds that ID value |
| `SimpleFilterProps.IdsOfIgnoresNonIds` | filter/simple.go:33-37 | Inserting non-ID elements anywhere in a list leaves the parsed IDs unchanged |
| `SimpleFilterProps.IdsOfSameElements` | filter/simple.go:33-37 | Which IDs a list yields depends only on which elements it holds, not on their order or repetition |
| `SimpleFilterProps.IdsOfNone` | filter/simple.go:33-37 | A list with no ID element yields no ID |
| `SimpleFilterProps.ParseIdsMember` | filter/simple.go:31-51 | An ID option yields `id` iff it is that ID or a list holding it; a scalar ID gives a one-element list; anything else gives nothing |
| `SimpleFilterProps.NonEmptyStringsAppend` | filter/simple.go:60-65 | String filtering of a list distributes over concatenation, so it keeps the original order |
| `SimpleFilterProps.NonEmptyStringsMember` | filter/simple.go:60-65 | A string is kept iff it is non-empty and the list holds it |
| `SimpleFilterProps.AttrMapEmpty` | filter/simple.go:53-82 | The attribute map is empty iff no option carrying the prefix yields an entry |
| `SimpleFilterProps.ListAttrEntry` | filter/simple.go:59-72 | A list value is stored as exactly its non-empty string elements, in order, and the attribute is absent iff no element survives |
| `SimpleFilterProps.ScalarAttrEntry` | filter/simple.go:73-78 | A scalar string value `val` is stored as `[val]`, even when `val` is `""` |
| `SimpleFilterProps.ReservedKeysAreNotAttributes` | filter/simple.go:22-25 | The reserved ID keys differ, and no `exclude_<attr>` or `eligible_<attr>` key equals either of them, for any `attr` |
| `SimpleFilterProps.BuildNoneIff` | filter/simple.go:27-29 | No filter is built iff no usable ID and no attribute entry survives parsing; empty options always give no filter |
| `SimpleFilterProps.BuildValid` | filter/simple.go:87-90 | A built filter is valid, and it requires the lock iff some `exclude_`/`eligible_` option yields an entry |
| `SimpleFilterProps.BlacklistedIdDenied` | filter/simple.go:107-112 | A session whose ID is blacklisted is denied, whatever the whitelist and attributes say |
| `SimpleFilterProps.WhitelistMissDenied` | filter/simple.go:114-126 | A non-empty ID whitelist denies every ID it does not contain |
| `SimpleFilterProps.EmptyWhitelistNoRestriction` | filter/simple.go:116 | With an empty ID whitelist, all non-blacklisted session IDs get the same decision |
| `SimpleFilterProps.BlacklistAttrAbsentNeverDenies` | filter/simple.go:128-134 | A blacklisted attribute whose session value is missing, not a string or empty leaves the decision as if that attribute were not listed |
| `SimpleFilterProps.BlacklistAttrMatchDenies` | filter/simple.go:135-141 | A non-empty session value equal to any listed value of a blacklisted attribute denies |
| `SimpleFilterProps.WhitelistAttrAbsentDenied` | filter/simple.go:144-151 | A whitelisted attribute whose session value is missing, not a string or empty denies |
| `SimpleFilterProps.WhitelistAttrMismatchDenied` | filter/simple.go:152-164 | A session value equal to none of a whitelisted attribute's values denies |
| `SimpleFilterProps.EmptyDetailIsAbsent` | filter/simple.go:131-132 | A session detail equal to `""` gives exactly the decision a missing detail gives |
| `SimpleFilterProps.IdOnlyFilterIgnoresDetails` | filter/simple.go:93-97 | A valid filter that needs no lock decides on the session ID alone: the session details never change its decision |
| `SimpleFilterProps.EligibleEmptyStringDeniesAll` | filter/simple.go:73-78 | With `eligible_<attr>: ""` among the options, a filter is built and it denies every session |
| `SimpleFilterProps.ExcludeEmptyStringNeverDenies` | filter/simple.go:73-78 | With `exclude_<attr>: ""` among the options, a filter is built and that entry never changes a decision |
| `SimpleFilterProps.SingleAttrOption` | filter/simple.go:53-82 | Options whose only key is one attribute option build the one-entry attribute map |
| `SimpleFilterProps.TwoIds` | filter/simple.go:33-37 | A list of two IDs parses to those two IDs, in order |
| `SimpleFilterProps.NoAttrOption` | filter/simple.go:53-82 | Options none of whose keys carries the prefix build an empty attribute map |
| `SimpleFilterProps.IdOptionsOnly` | filter/simple.go:84-90 | Options holding only the reserved ID keys, with at least one ID parsed, build a filter of those ID lists with empty attribute maps and no lock |
| `SimpleFilterProps.TwoStrings` | filter/simple.go:59-65 | A list of two non-empty strings is kept as it is, in order |
| `SimpleFilterProps.BlacklistAttrOnly` | filter/simple.go:84-90 | Options whose only key is `exclude_<attr>`, with a usable value, build a filter holding just that attribute blacklist, with the lock required |
| `SimpleFilterProps.WhitelistAttrOnly` | filter/simple.go:84-90 | Options whose only key is `eligible_<attr>`, with a usable value, build a filter holding just that attribute whitelist, with the lock required |
| `SimpleFilterProps.ExcludeRoleExample` | filter/simple.go:128-142 | `exclude_role: "guest"` builds an attribute blacklist; it denies role `guest` and admits role `admin` and sessions without a role |
| `SimpleFilterProps.EligibleRegionExample` | filter/simple.go:144-166 | `eligible_region: ["us", "eu"]` admits region `us`, and denies region `ap` and sessions without a region |
| `SimpleFilterProps.WhitelistIdsExample` | filter/simple.go:114-126 | An ID whitelist of 101 and 102 admits session 101 and denies session 103 |
| `SimpleFilterProps.BlacklistBeatsWhitelistExample` | filter/simple.go:107-126 | Session 5, blacklisted and also whitelisted, is denied; session 6 is admitted |

## Left out

- util/ping.go: a keep-alive procedure that returns an empty result, and its registration with the client. It is RPC plumbing with no filtering logic.
- Internals of the nexus helpers `wamp.AsID`, `wamp.AsList` and `wamp.AsString`. Each is modelled as a selector that succeeds on exactly one case of `Value`. The real helpers also convert other Go numeric and slice types; the model does not show which ones.
- The values of the nexus constants `wamp.BlacklistKey` and `wamp.WhitelistKey`. The model uses `"exclude"` and `"eligible"`, as described above.
- The `router.PublishFilter` interface, and how the broker uses `LockRequired` to take locks. Locking is concurrency policy outside this code. `lockRequired` is modelled only as a boolean field.
- `wamp.Session` is reduced to its ID and its details dictionary. Mutation of details by other goroutines during evaluation is not modelled.
- Go's `nil` versus empty slices and maps. The builder's `nil` checks at filter/simple.go:87 are modelled as emptiness checks. The code stores a slice or map only after appending to it, so `nil` and empty coincide there.
- `wamp.ID` is modelled as a 64-bit unsigned range. The filter does no arithmetic on IDs, so no wrap-around arises.
