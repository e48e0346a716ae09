/** The stored records the services read and write, and the stored form of a tag list. */
module Entities {

  /** A row of the users table, as the profile and article services see it
      (the credential column is never selected by these lookups). */
  datatype User = User(id: int, username: string, email: string, bio: string, image: string)

  /** A row of the articles table. `authorId` is the owning user's id: the
      author relation the services load with each article. */
  datatype Article = Article(
    id: nat,
    slug: string,
    title: string,
    description: string,
    body: string,
    tagList: seq<string>,
    createdAt: int,
    authorId: int)

  /** The stored form of a tag list: its tags joined by commas
      (`['coffe', 'dragons']` is stored as `'coffe,dragons'`). */
  function JoinTags(tags: seq<string>): string
  {
    if tags == [] then ""
    else if |tags| == 1 then tags[0]
    else tags[0] + "," + JoinTags(tags[1..])
  }

  /** `needle` occurs in `hay` starting at position `i`. */
  predicate OccursAt(hay: string, needle: string, i: int)
  {
    0 <= i && i + |needle| <= |hay| && hay[i..i + |needle|] == needle
  }

  /** Substring containment: what the pattern `'%' + needle + '%'` of SQL LIKE
      accepts when `needle` holds no wildcard character. */
  function Contains(hay: string, needle: string): bool
  {
    needle <= hay || (hay != [] && Contains(hay[1..], needle))
  }

  /** An occurrence at any position is found by `Contains`. */
  lemma {:induction false} OccursIsContained(hay: string, needle: string, i: int)
    requires OccursAt(hay, needle, i)
    ensures Contains(hay, needle)
    decreases i
  {
    if i == 0 {
      assert needle <= hay;
    } else {
      assert hay[1..][i - 1..i - 1 + |needle|] == hay[i..i + |needle|];
      OccursIsContained(hay[1..], needle, i - 1);
    }
  }

  /** What `Contains` finds occurs at some position. */
  lemma {:induction false} ContainedOccurs(hay: string, needle: string) returns (i: nat)
    requires Contains(hay, needle)
    ensures OccursAt(hay, needle, i)
  {
    if needle <= hay {
      i := 0;
    } else {
      var j := ContainedOccurs(hay[1..], needle);
      assert hay[1..][j..j + |needle|] == hay[j + 1..j + 1 + |needle|];
      i := j + 1;
    }
  }

  /** `Contains` holds exactly when the needle occurs at some position. */
  lemma ContainsIffOccurs(hay: string, needle: string)
    ensures Contains(hay, needle) <==> exists i :: OccursAt(hay, needle, i)
  {
    if Contains(hay, needle) {
      var i := ContainedOccurs(hay, needle);
    }
    if exists i :: OccursAt(hay, needle, i) {
      var i :| OccursAt(hay, needle, i);
      OccursIsContained(hay, needle, i);
    }
  }

  /** Containment survives putting text on either side of the haystack. */
  lemma ContainsInContext(pre: string, hay: string, post: string, needle: string)
    requires Contains(hay, needle)
    ensures Contains(pre + hay + post, needle)
  {
    ContainsIffOccurs(hay, needle);
    var i :| OccursAt(hay, needle, i);
    var whole := pre + hay + post;
    assert whole[|pre| + i..|pre| + i + |needle|] == hay[i..i + |needle|];
    assert OccursAt(whole, needle, |pre| + i);
    ContainsIffOccurs(whole, needle);
  }

  /** Every tag of a list is found by substring search in the list's stored form. */
  lemma {:induction false} MemberTagIsContained(tags: seq<string>, t: string)
    requires t in tags
    ensures Contains(JoinTags(tags), t)
  {
    assert t <= t;
    if |tags| == 1 {
      assert JoinTags(tags) == t;
    } else if tags[0] == t {
      ContainsInContext("", t, "," + JoinTags(tags[1..]), t);
      assert "" + t + ("," + JoinTags(tags[1..])) == JoinTags(tags);
    } else {
      MemberTagIsContained(tags[1..], t);
      ContainsInContext(tags[0] + ",", JoinTags(tags[1..]), "", t);
      assert tags[0] + "," + JoinTags(tags[1..]) + "" == JoinTags(tags);
    }
  }

  /** The converse fails: substring search on the stored form also accepts a
      fragment of a tag, and text that spans the separating comma. */
  lemma SubstringIsNotTagMembership()
    ensures var stored := JoinTags(["coffe", "dragons"]);
      stored == "coffe,dragons"
      && Contains(stored, "drag") && "drag" !in ["coffe", "dragons"]
      && Contains(stored, "e,d") && "e,d" !in ["coffe", "dragons"]
  {
    var stored := JoinTags(["coffe", "dragons"]);
    assert JoinTags(["coffe", "dragons"][1..]) == "dragons";
    assert stored == "coffe,dragons";
    assert OccursAt(stored, "drag", 6);
    assert OccursAt(stored, "e,d", 4);
    ContainsIffOccurs(stored, "drag");
    ContainsIffOccurs(stored, "e,d");
  }
}
