/** The nine batch functions that `createLoaders` hands to its request
    loaders, each written as the post-fetch step of its closure: it receives
    the keys the loader collected and the rows the bulk read returned, and
    answers key by key.

    The rows carry only the fields the batch functions touch, plus the
    scalar columns the schema exposes; float columns (a user's balance, a
    member type's discount) are not part of this model. */
module Loaders {
  import opened Wrappers
  import opened Batch

  /** One subscription link: `subscriberId` follows `authorId`. */
  datatype Subscription = Subscription(subscriberId: string, authorId: string)

  /** A user row, with its two lists of links as the bulk reads include them:
      `subscribedToUser` holds the links in which this user is the author,
      `userSubscribedTo` those in which this user is the subscriber. */
  datatype User = User(
    id: string,
    name: string,
    subscribedToUser: seq<Subscription>,
    userSubscribedTo: seq<Subscription>)

  datatype Post = Post(id: string, title: string, content: string, authorId: string)

  datatype Profile = Profile(id: string, isMale: bool, yearOfBirth: int, userId: string, memberTypeId: string)

  datatype MemberType = MemberType(id: string, postsLimitPerMonth: int)

  // Key extractors handed to the generic batch shapes.

  function UserId(u: User): string { u.id }
  function PostId(p: Post): string { p.id }
  function PostAuthorId(p: Post): string { p.authorId }
  function ProfileId(p: Profile): string { p.id }
  function ProfileUserId(p: Profile): string { p.userId }
  function ProfileMemberTypeId(p: Profile): string { p.memberTypeId }
  function MemberTypeId(m: MemberType): string { m.id }
  function SubscriberId(s: Subscription): string { s.subscriberId }
  function AuthorId(s: Subscription): string { s.authorId }
  function LinksAsAuthor(u: User): seq<Subscription> { u.subscribedToUser }
  function LinksAsSubscriber(u: User): seq<Subscription> { u.userSubscribedTo }

  // ---------------------------------------------------------------------
  // Single-valued loaders: user, post, profile, memberType, profileByUser
  // ---------------------------------------------------------------------

  /** `user`: slot i is the fetched user whose id is ids[i], or absence
      exactly when no fetched user has that id. */
  function UserBatch(ids: seq<string>, users: seq<User>): (r: seq<Option<User>>)
    ensures |r| == |ids|
    ensures forall i :: 0 <= i < |ids| ==> (r[i].None? <==> forall u :: u in users ==> u.id != ids[i])
    ensures forall i :: 0 <= i < |ids| && r[i].Some? ==> r[i].value in users && r[i].value.id == ids[i]
    ensures Aligned(ids, r)
    ensures forall i :: 0 <= i < |ids| && r[i].Some? ==> r[i].value == users[LastIndexOf(users, UserId, ids[i])]
  {
    AlignById(ids, users, UserId)
  }

  /** `post`: slot i is the fetched post whose id is postIds[i], or absence
      exactly when no fetched post has that id. */
  function PostBatch(postIds: seq<string>, posts: seq<Post>): (r: seq<Option<Post>>)
    ensures |r| == |postIds|
    ensures forall i :: 0 <= i < |postIds| ==> (r[i].None? <==> forall p :: p in posts ==> p.id != postIds[i])
    ensures forall i :: 0 <= i < |postIds| && r[i].Some? ==> r[i].value in posts && r[i].value.id == postIds[i]
    ensures Aligned(postIds, r)
    ensures forall i :: 0 <= i < |postIds| && r[i].Some? ==> r[i].value == posts[LastIndexOf(posts, PostId, postIds[i])]
  {
    AlignById(postIds, posts, PostId)
  }

  /** `profile`: slot i is the fetched profile whose id is profileIds[i], or
      absence exactly when no fetched profile has that id. */
  function ProfileBatch(profileIds: seq<string>, profiles: seq<Profile>): (r: seq<Option<Profile>>)
    ensures |r| == |profileIds|
    ensures forall i :: 0 <= i < |profileIds| ==> (r[i].None? <==> forall p :: p in profiles ==> p.id != profileIds[i])
    ensures forall i :: 0 <= i < |profileIds| && r[i].Some? ==> r[i].value in profiles && r[i].value.id == profileIds[i]
    ensures Aligned(profileIds, r)
    ensures forall i :: 0 <= i < |profileIds| && r[i].Some? ==> r[i].value == profiles[LastIndexOf(profiles, ProfileId, profileIds[i])]
  {
    AlignById(profileIds, profiles, ProfileId)
  }

  /** `memberType`: slot i is the fetched member type whose id is
      memberTypeIds[i], or absence exactly when none has that id. */
  function MemberTypeBatch(memberTypeIds: seq<string>, memberTypes: seq<MemberType>): (r: seq<Option<MemberType>>)
    ensures |r| == |memberTypeIds|
    ensures forall i :: 0 <= i < |memberTypeIds| ==>
      (r[i].None? <==> forall m :: m in memberTypes ==> m.id != memberTypeIds[i])
    ensures forall i :: 0 <= i < |memberTypeIds| && r[i].Some? ==>
      r[i].value in memberTypes && r[i].value.id == memberTypeIds[i]
    ensures Aligned(memberTypeIds, r)
    ensures forall i :: 0 <= i < |memberTypeIds| && r[i].Some? ==> r[i].value == memberTypes[LastIndexOf(memberTypes, MemberTypeId, memberTypeIds[i])]
  {
    AlignById(memberTypeIds, memberTypes, MemberTypeId)
  }

  /** `profileByUser`, keyed on the profile's userId: slot i is absence
      exactly when no fetched profile belongs to userIds[i]; otherwise it is
      the LAST such profile in fetch order, since building the map lets a
      later entry replace an earlier one. */
  function ProfileByUserBatch(userIds: seq<string>, profiles: seq<Profile>): (r: seq<Option<Profile>>)
    ensures |r| == |userIds|
    ensures Aligned(userIds, r)
    ensures forall i :: 0 <= i < |userIds| ==> (r[i].None? <==> forall p :: p in profiles ==> p.userId != userIds[i])
    ensures forall i :: 0 <= i < |userIds| && r[i].Some? ==>
      exists j :: 0 <= j < |profiles| && profiles[j] == r[i].value && profiles[j].userId == userIds[i] &&
        forall j' :: j < j' < |profiles| ==> profiles[j'].userId != userIds[i]
  {
    var r := AlignById(userIds, profiles, ProfileUserId);
    assert forall i :: 0 <= i < |userIds| && r[i].Some? ==>
      var j := LastIndexOf(profiles, ProfileUserId, userIds[i]);
      0 <= j < |profiles| && profiles[j] == r[i].value;
    r
  }

  // ---------------------------------------------------------------------
  // One-to-many loaders: postsByUser, profilesByMemberType
  // ---------------------------------------------------------------------

  /** `postsByUser`: slot i holds exactly the fetched posts written by
      userIds[i], in fetch order, each as often as it was fetched; it is
      empty, never absent, when that user has no fetched post. */
  method PostsByUserBatch(userIds: seq<string>, posts: seq<Post>) returns (r: seq<seq<Post>>)
    ensures |r| == |userIds|
    ensures forall i :: 0 <= i < |userIds| ==> r[i] == MatchingRows(posts, PostAuthorId, userIds[i])
    ensures forall i, p: Post :: 0 <= i < |userIds| ==>
      multiset(r[i])[p] == if p.authorId == userIds[i] then multiset(posts)[p] else 0
    ensures forall i, p :: 0 <= i < |userIds| ==> (p in r[i] <==> p in posts && p.authorId == userIds[i])
    ensures forall i :: 0 <= i < |userIds| ==> (r[i] == [] <==> forall p :: p in posts ==> p.authorId != userIds[i])
  {
    r := GroupByKey(userIds, posts, PostAuthorId);
    forall i, p: Post | 0 <= i < |userIds|
      ensures multiset(r[i])[p] == if p.authorId == userIds[i] then multiset(posts)[p] else 0
    {
      MatchingRowsMultiplicity(posts, PostAuthorId, userIds[i], p);
    }
    forall i | 0 <= i < |userIds| {
      MatchingRowsMembers(posts, PostAuthorId, userIds[i]);
    }
  }

  /** `profilesByMemberType`: slot i holds exactly the fetched profiles of
      member type memberTypeIds[i], in fetch order, each as often as it was
      fetched; it is empty, never absent, when there is none. */
  method ProfilesByMemberTypeBatch(memberTypeIds: seq<string>, profiles: seq<Profile>) returns (r: seq<seq<Profile>>)
    ensures |r| == |memberTypeIds|
    ensures forall i :: 0 <= i < |memberTypeIds| ==> r[i] == MatchingRows(profiles, ProfileMemberTypeId, memberTypeIds[i])
    ensures forall i, p: Profile :: 0 <= i < |memberTypeIds| ==>
      multiset(r[i])[p] == if p.memberTypeId == memberTypeIds[i] then multiset(profiles)[p] else 0
    ensures forall i, p :: 0 <= i < |memberTypeIds| ==> (p in r[i] <==> p in profiles && p.memberTypeId == memberTypeIds[i])
    ensures forall i :: 0 <= i < |memberTypeIds| ==>
      (r[i] == [] <==> forall p :: p in profiles ==> p.memberTypeId != memberTypeIds[i])
  {
    r := GroupByKey(memberTypeIds, profiles, ProfileMemberTypeId);
    forall i, p: Profile | 0 <= i < |memberTypeIds|
      ensures multiset(r[i])[p] == if p.memberTypeId == memberTypeIds[i] then multiset(profiles)[p] else 0
    {
      MatchingRowsMultiplicity(profiles, ProfileMemberTypeId, memberTypeIds[i], p);
    }
    forall i | 0 <= i < |memberTypeIds| {
      MatchingRowsMembers(profiles, ProfileMemberTypeId, memberTypeIds[i]);
    }
  }

  // ---------------------------------------------------------------------
  // Many-to-many loaders: userSubscribedTo, subscribedToUser
  // ---------------------------------------------------------------------

  /** `userSubscribedTo`, keyed on subscriber ids: the fetched users are
      authors, each carrying the links in which it is the author. Slot i
      holds every fetched user once per link of theirs whose subscriber is
      subscriberIds[i], in fetch order; it is empty, never absent, when no
      such link was fetched. */
  method UserSubscribedToBatch(subscriberIds: seq<string>, users: seq<User>) returns (r: seq<seq<User>>)
    ensures |r| == |subscriberIds|
    ensures forall i :: 0 <= i < |subscriberIds| ==>
      r[i] == LinkedRows(users, LinksAsAuthor, SubscriberId, subscriberIds[i])
    ensures forall i, u :: 0 <= i < |subscriberIds| ==>
      multiset(r[i])[u] == multiset(users)[u] * LinkCount(u.subscribedToUser, SubscriberId, subscriberIds[i])
    ensures forall i, u :: 0 <= i < |subscriberIds| ==>
      (u in r[i] <==> u in users && exists s :: s in u.subscribedToUser && s.subscriberId == subscriberIds[i])
    ensures forall i :: 0 <= i < |subscriberIds| ==>
      (r[i] == [] <==> forall u, s :: u in users && s in u.subscribedToUser ==> s.subscriberId != subscriberIds[i])
  {
    r := GroupByLinks(subscriberIds, users, LinksAsAuthor, SubscriberId);
    forall i, u | 0 <= i < |subscriberIds|
      ensures multiset(r[i])[u] == multiset(users)[u] * LinkCount(u.subscribedToUser, SubscriberId, subscriberIds[i])
    {
      LinkedRowsMultiplicity(users, LinksAsAuthor, SubscriberId, subscriberIds[i], u);
    }
    forall i | 0 <= i < |subscriberIds| {
      LinkedRowsMembers(users, LinksAsAuthor, SubscriberId, subscriberIds[i]);
    }
  }

  /** `subscribedToUser`, keyed on author ids: the fetched users are
      subscribers, each carrying the links in which it is the subscriber.
      Slot i holds every fetched user once per link of theirs whose author is
      authorIds[i], in fetch order; it is empty, never absent, when no such
      link was fetched. */
  method SubscribedToUserBatch(authorIds: seq<string>, users: seq<User>) returns (r: seq<seq<User>>)
    ensures |r| == |authorIds|
    ensures forall i :: 0 <= i < |authorIds| ==>
      r[i] == LinkedRows(users, LinksAsSubscriber, AuthorId, authorIds[i])
    ensures forall i, u :: 0 <= i < |authorIds| ==>
      multiset(r[i])[u] == multiset(users)[u] * LinkCount(u.userSubscribedTo, AuthorId, authorIds[i])
    ensures forall i, u :: 0 <= i < |authorIds| ==>
      (u in r[i] <==> u in users && exists s :: s in u.userSubscribedTo && s.authorId == authorIds[i])
    ensures forall i :: 0 <= i < |authorIds| ==>
      (r[i] == [] <==> forall u, s :: u in users && s in u.userSubscribedTo ==> s.authorId != authorIds[i])
  {
    r := GroupByLinks(authorIds, users, LinksAsSubscriber, AuthorId);
    forall i, u | 0 <= i < |authorIds|
      ensures multiset(r[i])[u] == multiset(users)[u] * LinkCount(u.userSubscribedTo, AuthorId, authorIds[i])
    {
      LinkedRowsMultiplicity(users, LinksAsSubscriber, AuthorId, authorIds[i], u);
    }
    forall i | 0 <= i < |authorIds| {
      LinkedRowsMembers(users, LinksAsSubscriber, AuthorId, authorIds[i]);
    }
  }
}
