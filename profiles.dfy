/** Profiles and the follow relation: a directed "follower follows following"
    table of rows, read by profile lookups and changed by follow and unfollow. */
module Profiles {
  import opened Common
  import opened Entities

  /** A row of the follow table. */
  datatype Follow = Follow(followerId: int, followingId: int)

  /** A user as a profile: the user's fields plus whether the viewer follows
      them. `email` is present as loaded and is dropped from responses. */
  datatype Profile = Profile(
    id: int,
    username: string,
    email: Option<string>,
    bio: string,
    image: string,
    following: bool)

  datatype ProfileResponse = ProfileResponse(profile: Profile)

  /** The users table keyed by username: each entry is the user of that name. */
  predicate KeyedByUsername(users: map<string, User>)
  {
    forall name :: name in users ==> users[name].username == name
  }

  /** No follow row occurs twice. */
  predicate NoDuplicateRows(follows: seq<Follow>)
  {
    forall i, j :: 0 <= i < j < |follows| ==> follows[i] != follows[j]
  }

  /** Nobody follows themselves. */
  predicate NoSelfFollows(follows: seq<Follow>)
  {
    forall f :: f in follows ==> f.followerId != f.followingId
  }

  /** The profile of a user with the given following flag. */
  function ProfileOf(user: User, following: bool): (p: Profile)
    ensures p.id == user.id && p.username == user.username && p.email == Some(user.email)
    ensures p.bio == user.bio && p.image == user.image && p.following == following
  {
    Profile(user.id, user.username, Some(user.email), user.bio, user.image, following)
  }

  /** Looks up a profile by username: not found for an unknown name, and
      otherwise the user with `following` set exactly when the viewer's follow
      row for that user exists. */
  function GetProfile(users: map<string, User>, follows: seq<Follow>, currentUserId: int, username: string): (r: Result<Profile>)
    ensures r.Err? <==> username !in users
    ensures r.Err? ==> r.error == ProfileNotFound
    ensures r.Ok? ==>
      && r.value.id == users[username].id
      && r.value.username == users[username].username
      && r.value.email == Some(users[username].email)
      && r.value.bio == users[username].bio && r.value.image == users[username].image
      && (KeyedByUsername(users) ==> r.value.username == username)
      && (r.value.following <==> Follow(currentUserId, users[username].id) in follows)
  {
    if username !in users then Err(ProfileNotFound)
    else
      var user := users[username];
      Ok(ProfileOf(user, Follow(currentUserId, user.id) in follows))
  }

  /** The follow table after inserting a row only if it is not already there. */
  function Followed(follows: seq<Follow>, row: Follow): (r: seq<Follow>)
    ensures row in r
    ensures forall f :: f != row ==> (f in r <==> f in follows)
    ensures |r| == |follows| + (if row in follows then 0 else 1)
    ensures follows <= r
    ensures NoDuplicateRows(follows) ==> NoDuplicateRows(r)
  {
    if row in follows then follows else follows + [row]
  }

  /** The follow table with every copy of a row deleted, the rest in order. */
  function Unfollowed(follows: seq<Follow>, row: Follow): (r: seq<Follow>)
    ensures row !in r
    ensures forall f :: f in r ==> f in follows
    ensures forall f :: f != row ==> multiset(r)[f] == multiset(follows)[f]
  {
    if follows == [] then []
    else
      assert follows == [follows[0]] + follows[1..];
      if follows[0] == row then Unfollowed(follows[1..], row)
      else [follows[0]] + Unfollowed(follows[1..], row)
  }

  /** Inserting the same row twice is inserting it once. */
  lemma FollowIsIdempotent(follows: seq<Follow>, row: Follow)
    ensures Followed(Followed(follows, row), row) == Followed(follows, row)
  {
  }

  /** Deleting the same row twice is deleting it once. */
  lemma {:induction false} UnfollowIsIdempotent(follows: seq<Follow>, row: Follow)
    ensures Unfollowed(Unfollowed(follows, row), row) == Unfollowed(follows, row)
  {
    if follows != [] {
      UnfollowIsIdempotent(follows[1..], row);
    }
  }

  /** Deleting a row that is not there leaves the table as it was. */
  lemma {:induction false} UnfollowAbsentIsNoOp(follows: seq<Follow>, row: Follow)
    requires row !in follows
    ensures Unfollowed(follows, row) == follows
  {
    if follows != [] {
      assert follows[0] != row;
      assert row !in follows[1..];
      UnfollowAbsentIsNoOp(follows[1..], row);
    }
  }

  /** Deleting rows keeps a table free of duplicates. */
  lemma {:induction false} UnfollowKeepsNoDuplicates(follows: seq<Follow>, row: Follow)
    requires NoDuplicateRows(follows)
    ensures NoDuplicateRows(Unfollowed(follows, row))
  {
    if follows != [] {
      var rest := Unfollowed(follows[1..], row);
      UnfollowKeepsNoDuplicates(follows[1..], row);
      if follows[0] != row {
        forall k | 0 <= k < |follows[1..]| ensures follows[1..][k] != follows[0] {
          assert follows[1..][k] == follows[k + 1];
        }
        assert multiset(follows[1..])[follows[0]] == 0;
        assert follows[0] !in rest by {
          assert multiset(rest)[follows[0]] == 0;
        }
        var r := [follows[0]] + rest;
        forall i, j | 0 <= i < j < |r| ensures r[i] != r[j] {
          assert r[j] == rest[j - 1] && r[j] in rest;
          if i > 0 { assert r[i] == rest[i - 1]; }
        }
      }
    }
  }

  /** After a follow of a known, different user, the viewer's profile of that
      user reads `following`; after an unfollow it does not. */
  lemma FollowThenProfileIsFollowing(users: map<string, User>, follows: seq<Follow>, currentUserId: int, username: string)
    requires username in users
    ensures GetProfile(users, Followed(follows, Follow(currentUserId, users[username].id)), currentUserId, username)
      == Ok(ProfileOf(users[username], true))
    ensures GetProfile(users, Unfollowed(follows, Follow(currentUserId, users[username].id)), currentUserId, username)
      == Ok(ProfileOf(users[username], false))
  {
  }

  /** Drops the email from a profile; putting it back gives the profile again. */
  function BuildProfileResponse(profile: Profile): (r: ProfileResponse)
    ensures r.profile.email.None?
    ensures r.profile.(email := profile.email) == profile
  {
    ProfileResponse(profile.(email := None))
  }

  /** The service over the users table, which it only reads, and the follow table. */
  class ProfileService {
    var users: map<string, User>
    var follows: seq<Follow>

    ghost predicate Valid()
      reads this
    {
      KeyedByUsername(users) && NoDuplicateRows(follows) && NoSelfFollows(follows)
    }

    constructor (users: map<string, User>)
      requires KeyedByUsername(users)
      ensures Valid() && this.users == users && follows == []
    {
      this.users := users;
      follows := [];
    }

    /** Follows a user by name. An unknown name fails first, then a user
        following themselves; otherwise the follow row is inserted if missing. */
    method FollowProfile(currentUserId: int, username: string) returns (r: Result<Profile>)
      requires Valid()
      modifies this`follows
      ensures Valid()
      ensures username !in users ==> r == Err(ProfileNotFound) && follows == old(follows)
      ensures username in users && users[username].id == currentUserId ==>
        r == Err(SelfFollow) && follows == old(follows)
      ensures username in users && users[username].id != currentUserId ==>
        && r == Ok(ProfileOf(users[username], true))
        && follows == Followed(old(follows), Follow(currentUserId, users[username].id))
    {
      if username !in users {
        return Err(ProfileNotFound);
      }
      var user := users[username];
      if currentUserId == user.id {
        return Err(SelfFollow);
      }
      var row := Follow(currentUserId, user.id);
      if row !in follows {
        follows := follows + [row];
      }
      r := Ok(ProfileOf(user, true));
    }

    /** Unfollows a user by name, with the same two guards; then every follow
        row from the viewer to that user is deleted, none being no error. */
    method UnfollowProfile(currentUserId: int, username: string) returns (r: Result<Profile>)
      requires Valid()
      modifies this`follows
      ensures Valid()
      ensures username !in users ==> r == Err(ProfileNotFound) && follows == old(follows)
      ensures username in users && users[username].id == currentUserId ==>
        r == Err(SelfFollow) && follows == old(follows)
      ensures username in users && users[username].id != currentUserId ==>
        && r == Ok(ProfileOf(users[username], false))
        && follows == Unfollowed(old(follows), Follow(currentUserId, users[username].id))
    {
      if username !in users {
        return Err(ProfileNotFound);
      }
      var user := users[username];
      if currentUserId == user.id {
        return Err(SelfFollow);
      }
      var row := Follow(currentUserId, user.id);
      UnfollowKeepsNoDuplicates(follows, row);
      follows := Unfollowed(follows, row);
      r := Ok(ProfileOf(user, false));
    }
  }
}
