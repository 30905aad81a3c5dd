# Request-loader batch functions

This project models the batch functions of the GraphQL service's request
loaders (`src/routes/graphql/loaders.ts`). `createLoaders` builds nine
DataLoader instances. Each is given a closure that receives the keys
collected for one batch and does one bulk read. It must then answer with a
list that lines up with the keys position by position: the same length, and
slot i answering key i.

The model covers what each closure does after its bulk read. The rows the
read returned are an arbitrary sequence handed to the function, in the order
the store returned them. There are three shapes, each written once
generically in module `Batch` and instantiated per loader in module
`Loaders`:

- **Single-valued lookup** (`user`, `post`, `profile`, `memberType`,
  `profileByUser`). A JavaScript `Map` is built from the rows, in fetch
  order, so a later row with the same key replaces an earlier one. Then
  each key is looked up. A missing key yields `undefined`, modelled as
  `None`. These closures are pure and are modelled as functions
  (`Batch.BuildMap`, `Batch.AlignById`).
- **One-to-many grouping by a foreign key** (`postsByUser`,
  `profilesByMemberType`). A dictionary is filled in a loop. A bucket is
  created the first time its key is seen, and each row is appended to its
  bucket. Each key is then mapped to its bucket or to `[]`. This is modelled
  as a method with a `while` loop over a local `map` (`Batch.GroupByKey`).
- **Many-to-many grouping through subscription links** (`userSubscribedTo`,
  `subscribedToUser`). Each fetched user carries its subscription links.
  The user is appended to the bucket of every link's subscriber id (or
  author id). This is modelled as nested loops (`Batch.GroupByLinks` and
  `Batch.FileUnderLinks`).

Each shape is proved against an independent reference definition:

- `LastIndexOf`: the last fetched row with the key.
- `MatchingRows`: the subsequence of rows with the key.
- `LinkedRows`: each row repeated once per link that names the key.

Lemmas about these definitions state what the loaders promise:

- the output is aligned with the keys;
- missing keys get absence or an empty list, never a hole;
- contents are exact, counting duplicates;
- fetch order is kept;
- rows and links that name other keys are ignored.

In `userSubscribedTo` the fetched users are the authors, each with the links
in which it is the author (`subscribedToUser`). Slot i lists the authors
that subscriber i follows. `subscribedToUser` is the mirror image.

## Model

| member | source | states |
|---|---|---|
| `Batch.LastIndexOf` | src/routes/graphql/loaders.ts:62-65 | the index it returns is that of a row with key k, and no later row has key k; -1 exactly when no row has key k |
| `Batch.BuildMapLastWins` | src/routes/graphql/loaders.ts:10 | a key is in the map built from the fetched rows (`BuildMap`, the `new Map(...)` construction) iff some fetched row has it, and it is bound to the last such row (later entries replace earlier ones) |
| `Batch.AlignById` | src/routes/graphql/loaders.ts:10-11 | one slot per key; equal keys get equal results; slot i (the `map.get` lookup, `Get`) is absent exactly when no fetched row has key i; otherwise it is a fetched row with that key, namely the last one |
| `Batch.GroupByKey` | src/routes/graphql/loaders.ts:26-33 | the bucket-filling loop and the final `record[k] \|\| []` lookup (`BucketOrEmpty`) give one slot per key, equal keys get equal slots, and slot i is exactly the fetch-ordered subsequence of rows whose key is key i |
| `Batch.MatchingRowsAppend` | src/routes/graphql/loaders.ts:27-32 | grouping keeps fetch order: the group of a concatenation of fetched rows is the concatenation of their groups |
| `Batch.MatchingRowsMultiplicity` | src/routes/graphql/loaders.ts:27-33 | a row occurs in k's group exactly as often as it was fetched when its key is k, and never otherwise |
| `Batch.MatchingRowsMembers` | src/routes/graphql/loaders.ts:33 | a row is in k's group iff it was fetched with key k; the group is empty (not absent) iff no fetched row has key k |
| `Batch.MatchingRowsIgnoresOtherKeys` | src/routes/graphql/loaders.ts:27-31 | inserting a fetched row whose key is not k anywhere in the fetch order leaves k's group unchanged |
| `Batch.LinkCountZero` | src/routes/graphql/loaders.ts:96-101 | the number of a row's links naming k is zero iff none of its links names k |
| `Batch.FileUnderLinks` | src/routes/graphql/loaders.ts:96-101 | walking one user's links grows every bucket k by one copy of the user per link naming k, leaving all other contents as they were |
| `Batch.GroupByLinks` | src/routes/graphql/loaders.ts:94-104 | the nested loops and the final `record[k] \|\| []` lookup (`BucketOrEmpty`) give one slot per key, equal keys get equal slots, and slot i is each fetched row, in fetch order, repeated once per link naming key i |
| `Batch.LinkedRowsAppend` | src/routes/graphql/loaders.ts:95-102 | many-to-many grouping keeps fetch order: the group of a concatenation is the concatenation of the groups |
| `Batch.LinkedRowsMultiplicity` | src/routes/graphql/loaders.ts:95-102 | a row occurs in k's group (times fetched) × (its links naming k) times; links naming other keys add nothing |
| `Batch.LinkedRowsMembers` | src/routes/graphql/loaders.ts:94-104 | a row is in k's group iff it was fetched and one of its links names k; the group is empty iff no fetched row has such a link |
| `Batch.LinkedRowsIgnoresUnlinked` | src/routes/graphql/loaders.ts:96-101 | inserting a fetched row none of whose links names k anywhere in the fetch order leaves k's group unchanged |
| `Batch.MatchingRowsAsLinkedRows` | src/routes/graphql/loaders.ts:22-34 | the one-to-many grouping equals the many-to-many grouping in which every row carries the single link that is itself |
| `Loaders.UserBatch` | src/routes/graphql/loaders.ts:6-12 | one slot per id; equal ids get equal slots; slot i is absent iff no fetched user has id i, else the last fetched user whose id is id i |
| `Loaders.PostBatch` | src/routes/graphql/loaders.ts:14-20 | one slot per post id; equal ids get equal slots; slot i is absent iff no fetched post has that id, else the last fetched post with that id |
| `Loaders.PostsByUserBatch` | src/routes/graphql/loaders.ts:22-34 | one slot per user id; slot i is the fetch-ordered posts by author i; each such post appears as often as fetched and no other post appears; a post is there iff it was fetched with author i; empty iff that author has no fetched post |
| `Loaders.ProfileBatch` | src/routes/graphql/loaders.ts:36-42 | one slot per profile id; equal ids get equal slots; slot i is absent iff no fetched profile has that id, else the last fetched profile with that id |
| `Loaders.ProfilesByMemberTypeBatch` | src/routes/graphql/loaders.ts:44-56 | one slot per member type id; slot i is the fetch-ordered profiles of member type i, each as often as fetched; a profile is there iff it was fetched with member type i; empty iff there is none |
| `Loaders.ProfileByUserBatch` | src/routes/graphql/loaders.ts:58-66 | one slot per user id; equal ids get equal slots; slot i is absent iff no fetched profile belongs to user i, else the fetched profile of user i that comes last in fetch order |
| `Loaders.MemberTypeBatch` | src/routes/graphql/loaders.ts:68-78 | one slot per member type id; equal ids get equal slots; slot i is absent iff no fetched member type has that id, else the last fetched member type with that id |
| `Loaders.UserSubscribedToBatch` | src/routes/graphql/loaders.ts:80-105 | one slot per subscriber id; slot i holds each fetched user once per link of theirs whose subscriber is id i, in fetch order; a user is there iff it has such a link; empty iff no fetched link names that subscriber |
| `Loaders.SubscribedToUserBatch` | src/routes/graphql/loaders.ts:107-132 | one slot per author id; slot i holds each fetched user once per link of theirs whose author is id i, in fetch order; a user is there iff it has such a link; empty iff no fetched link names that author |

## Left out

- The DataLoader library (loaders.ts:1) is not part of this model. Its per-request cache, key deduplication, dispatch coalescing, priming and length check on the returned list are library code. The model states only the contract it imposes on batch functions: one aligned slot per key.
- The Prisma bulk reads (`findMany` with `in` filters and `include`) are not modelled. Their result is an arbitrary sequence of rows, so every property holds whatever rows the store returns, including rows the filters would have excluded.
- `createLoaders` itself is not modelled as an object holding nine loaders; each of its nine closures is modelled as its own member. `index.ts` never puts the loaders into the request context; that wiring is not modelled.
- Asynchrony (`async`/`await`, promises) is not modelled; each batch function is a synchronous computation over its inputs.
- The source's `as User` cast hides `undefined`; the model makes the absence explicit with `Option`.
- The dictionaries are plain JavaScript objects (`Record<string, …>`). The model treats them as pure dictionaries. Keys such as `constructor` or `__proto__` would hit the object prototype, but ids here are UUIDs and member type ids are enum values. Aliasing is not modelled either: `record[k] || []` and `map.get` hand back the bucket array or row object itself, so equal keys share one object, while the model compares results by value only.
- Float columns (`balance`, `discount`) and the scalar validation of UUIDs are schema declarations with no computation here; those fields are not in the row datatypes.
- The mutation resolvers, root query resolvers and type declarations (`mutations.ts`, `rootQuery.ts`, `types/*.ts`) are not part of this model. Most resolvers are a single database call or a one-line `load` delegation. The exception is `subscribeTo` (mutations.ts:153-172): it looks the link up, throws `Already subscribed to this user.` when the link exists, and only then creates it. That is a check against the database, not local logic. `types/memberTypes.ts` only declares types.
- No loader is ever primed: nothing in the code calls `prime`, so a loader's cache is filled only through its batch function.
