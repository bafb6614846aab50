/**
 * The face-recognition prototype: a store mapping user ids to face
 * embeddings, kept as an insertion-ordered dictionary, and identification of
 * a probe face as the stored user with the highest similarity, accepted
 * above a fixed threshold.
 *
 * The camera, the face detector and the embedding network are parameters:
 * a capture is a key code and the list of detected boxes, `embed` gives the
 * embedding of the face cut out of a box, and `similarity` scores a probe
 * embedding against a stored one. Scores are exact reals.
 */
module FaceRecognition {
  import opened Wrappers
  import opened Query

  type UserId = string

  /** A face embedding; what it holds matters only to `similarity`. */
  type Embedding = seq<real>

  /** One key of the store with its value, in the dictionary's order. */
  datatype Entry = Entry(userId: UserId, embedding: Embedding)

  /** A detected face, as corners (x1, y1) and (x2, y2). */
  datatype Box = Box(x1: real, y1: real, x2: real, y2: real)

  /** The outcome of a login attempt. */
  datatype LoginOutcome = Welcome(userId: UserId, similarity: real) | LoginFailed

  /** The key code of the space bar, which triggers a capture. */
  const SPACE_KEY := 32

  /** Login needs a similarity strictly above this. */
  const MATCH_THRESHOLD: real := 0.7

  /** The running maximum starts here, with no user matched. */
  const INITIAL_SIMILARITY: real := -1.0

  // ---------------------------------------------------------------------
  // The store

  /** Dictionary keys are unique. */
  predicate UniqueIds(entries: seq<Entry>)
  {
    forall i, j :: 0 <= i < j < |entries| ==> entries[i].userId != entries[j].userId
  }

  /** The keys in iteration order. */
  function Ids(entries: seq<Entry>): (ids: seq<UserId>)
    ensures |ids| == |entries| && forall i :: 0 <= i < |entries| ==> ids[i] == entries[i].userId
  {
    seq(|entries|, i requires 0 <= i < |entries| => entries[i].userId)
  }

  function IndexOfUser(entries: seq<Entry>, userId: UserId): Option<nat>
  {
    First(entries, (e: Entry) => e.userId == userId)
  }

  /** `embeddings.get(user_id)`. */
  function Lookup(entries: seq<Entry>, userId: UserId): (r: Option<Embedding>)
    ensures r.Some? <==> exists i :: 0 <= i < |entries| && entries[i].userId == userId
  {
    match IndexOfUser(entries, userId)
    case None => None
    case Some(k) => Some(entries[k].embedding)
  }

  /**
   * `embeddings[user_id] = embedding`: an existing key keeps its position and
   * gets the new value; a new key goes at the end.
   */
  function Put(entries: seq<Entry>, userId: UserId, embedding: Embedding): (r: seq<Entry>)
    ensures |entries| <= |r| <= |entries| + 1
    ensures forall j :: 0 <= j < |entries| && entries[j].userId != userId ==> r[j] == entries[j]
    ensures (exists j :: 0 <= j < |entries| && entries[j].userId == userId) ==>
      Ids(r) == Ids(entries)
    ensures IndexOfUser(entries, userId).Some? ==>
      r[IndexOfUser(entries, userId).value] == Entry(userId, embedding)
    ensures (forall j :: 0 <= j < |entries| ==> entries[j].userId != userId) ==>
      r == entries + [Entry(userId, embedding)]
    ensures UniqueIds(entries) ==> UniqueIds(r)
  {
    match IndexOfUser(entries, userId)
    case Some(k) => entries[k := Entry(userId, embedding)]
    case None => entries + [Entry(userId, embedding)]
  }

  /** After registering, the user's id gives the new embedding and every other id what it gave before. */
  lemma PutLookup(entries: seq<Entry>, userId: UserId, embedding: Embedding, other: UserId)
    ensures Lookup(Put(entries, userId, embedding), userId) == Some(embedding)
    ensures other != userId ==> Lookup(Put(entries, userId, embedding), other) == Lookup(entries, other)
  {
    var r := Put(entries, userId, embedding);
    match IndexOfUser(entries, userId)
    case Some(k) =>
      FirstAgrees(entries, r, (e: Entry) => e.userId == userId, (e: Entry) => e.userId == userId);
      FirstAgrees(entries, r, (e: Entry) => e.userId == other, (e: Entry) => e.userId == other);
    case None =>
      assert r[|entries|].userId == userId;
      var k := IndexOfUser(r, other);
      if other != userId && k.Some? {
        assert k.value < |entries|;
        assert forall j :: 0 <= j < |entries| ==> r[j] == entries[j];
        FirstAgrees(entries, r[..|entries|], (e: Entry) => e.userId == other, (e: Entry) => e.userId == other);
      }
  }

  // ---------------------------------------------------------------------
  // Capture

  /** A capture happens on the space bar when a face was detected; it uses the first box only. */
  function SelectFace(key: int, boxes: seq<Box>): (r: Option<Box>)
    ensures r.Some? <==> key == SPACE_KEY && |boxes| > 0
    ensures r.Some? ==> r.value == boxes[0]
  {
    if key == SPACE_KEY && |boxes| > 0 then Some(boxes[0]) else None
  }

  /** Further detections neither block nor change a capture. */
  lemma ExtraFacesIgnored(key: int, box: Box, others: seq<Box>)
    ensures SelectFace(key, [box] + others) == SelectFace(key, [box])
  {
  }

  // ---------------------------------------------------------------------
  // Identification

  /**
   * `maxSimilarity` and `matchedUser` are what the login loop leaves: the
   * best score, bounded below by the initial -1, and the earliest entry
   * reaching it when it beats -1 (the comparison is strict, so a later
   * entry with an equal score does not displace an earlier one).
   */
  ghost predicate IsBestMatch(entries: seq<Entry>, probe: Embedding, similarity: (Embedding, Embedding) -> real,
                              maxSimilarity: real, matchedUser: Option<UserId>)
  {
    && (forall i :: 0 <= i < |entries| ==> similarity(probe, entries[i].embedding) <= maxSimilarity)
    && match matchedUser
       case None => maxSimilarity == INITIAL_SIMILARITY
       case Some(u) =>
         && INITIAL_SIMILARITY < maxSimilarity
         && exists k :: 0 <= k < |entries| && entries[k].userId == u &&
              similarity(probe, entries[k].embedding) == maxSimilarity &&
              forall j :: 0 <= j < k ==> similarity(probe, entries[j].embedding) < maxSimilarity
  }

  /** The best-match loop of `login_user`. */
  method BestMatch(entries: seq<Entry>, probe: Embedding, similarity: (Embedding, Embedding) -> real)
    returns (maxSimilarity: real, matchedUser: Option<UserId>)
    ensures IsBestMatch(entries, probe, similarity, maxSimilarity, matchedUser)
  {
    maxSimilarity := INITIAL_SIMILARITY;
    matchedUser := None;
    for i := 0 to |entries|
      invariant IsBestMatch(entries[..i], probe, similarity, maxSimilarity, matchedUser)
    {
      var s := similarity(probe, entries[i].embedding);
      if s > maxSimilarity {
        maxSimilarity := s;
        matchedUser := Some(entries[i].userId);
      }
      assert entries[..i + 1] == entries[..i] + [entries[i]];
    }
    assert entries[..|entries|] == entries;
  }

  /** The loop's result is determined by the store and the scores. */
  lemma BestMatchDeterministic(entries: seq<Entry>, probe: Embedding, similarity: (Embedding, Embedding) -> real,
                               m1: real, u1: Option<UserId>, m2: real, u2: Option<UserId>)
    requires IsBestMatch(entries, probe, similarity, m1, u1)
    requires IsBestMatch(entries, probe, similarity, m2, u2)
    ensures m1 == m2 && u1 == u2
  {
    if u1.Some? && u2.Some? {
      var k1 :| 0 <= k1 < |entries| && entries[k1].userId == u1.value &&
        similarity(probe, entries[k1].embedding) == m1 &&
        forall j :: 0 <= j < k1 ==> similarity(probe, entries[j].embedding) < m1;
      var k2 :| 0 <= k2 < |entries| && entries[k2].userId == u2.value &&
        similarity(probe, entries[k2].embedding) == m2 &&
        forall j :: 0 <= j < k2 ==> similarity(probe, entries[j].embedding) < m2;
      assert m1 <= m2 && m2 <= m1;
    }
  }

  /**
   * For a non-empty store whose scores lie in the range of a cosine
   * similarity (at least -1), the result is the maximum score.
   */
  lemma BestMatchIsMaximum(entries: seq<Entry>, probe: Embedding, similarity: (Embedding, Embedding) -> real,
                           maxSimilarity: real, matchedUser: Option<UserId>)
    requires IsBestMatch(entries, probe, similarity, maxSimilarity, matchedUser)
    requires |entries| > 0
    requires forall i :: 0 <= i < |entries| ==> INITIAL_SIMILARITY <= similarity(probe, entries[i].embedding)
    ensures exists k :: 0 <= k < |entries| && similarity(probe, entries[k].embedding) == maxSimilarity
  {
    if matchedUser.None? {
      assert similarity(probe, entries[0].embedding) == maxSimilarity;
    }
  }

  /** Ties go to the earliest entry: a later entry with the same top score is not the one matched. */
  lemma TieGoesToEarliest(entries: seq<Entry>, probe: Embedding, similarity: (Embedding, Embedding) -> real,
                          maxSimilarity: real, u: UserId, i: nat, j: nat)
    requires IsBestMatch(entries, probe, similarity, maxSimilarity, Some(u))
    requires UniqueIds(entries)
    requires i < j < |entries| && similarity(probe, entries[i].embedding) == maxSimilarity
    ensures entries[j].userId != u
  {
    var k :| 0 <= k < |entries| && entries[k].userId == u &&
      similarity(probe, entries[k].embedding) == maxSimilarity &&
      forall l :: 0 <= l < k ==> similarity(probe, entries[l].embedding) < maxSimilarity;
    assert k <= i;
  }

  /** The empty store matches nobody and leaves the initial score. */
  lemma EmptyStoreMatchesNobody(probe: Embedding, similarity: (Embedding, Embedding) -> real,
                                maxSimilarity: real, matchedUser: Option<UserId>)
    requires IsBestMatch([], probe, similarity, maxSimilarity, matchedUser)
    ensures matchedUser.None? && maxSimilarity == INITIAL_SIMILARITY
  {
  }

  /** `login_user` once a face is captured: welcome the best match if it beats the threshold. */
  method LoginUser(entries: seq<Entry>, probe: Embedding, similarity: (Embedding, Embedding) -> real)
    returns (outcome: LoginOutcome)
    ensures outcome.Welcome? <==>
      exists i :: 0 <= i < |entries| && similarity(probe, entries[i].embedding) > MATCH_THRESHOLD
    ensures outcome.Welcome? ==>
      IsBestMatch(entries, probe, similarity, outcome.similarity, Some(outcome.userId))
  {
    var maxSimilarity, matchedUser := BestMatch(entries, probe, similarity);
    if maxSimilarity > MATCH_THRESHOLD {
      outcome := Welcome(matchedUser.value, maxSimilarity);
    } else {
      outcome := LoginFailed;
    }
  }

  // ---------------------------------------------------------------------
  // The pickled store, updated in place

  class FaceStore {
    var entries: seq<Entry>

    ghost predicate Valid()
      reads this
    {
      UniqueIds(entries)
    }

    /** The store starts as an empty dictionary. */
    constructor ()
      ensures Valid() && entries == []
    {
      entries := [];
    }

    /** `embeddings[user_id] = embedding`, then saved. */
    method Register(userId: UserId, embedding: Embedding)
      requires Valid()
      modifies this
      ensures Valid()
      ensures entries == Put(old(entries), userId, embedding)
    {
      var k := IndexOfUser(entries, userId);
      if k.Some? {
        entries := entries[k.value := Entry(userId, embedding)];
      } else {
        entries := entries + [Entry(userId, embedding)];
      }
    }

    /** One pass of the registration loop: register the first face if captured. */
    method RegisterFrame(userId: UserId, key: int, boxes: seq<Box>, embed: Box -> Embedding)
      returns (captured: bool)
      requires Valid()
      modifies this
      ensures Valid()
      ensures captured <==> SelectFace(key, boxes).Some?
      ensures entries == if captured then Put(old(entries), userId, embed(boxes[0])) else old(entries)
    {
      var face := SelectFace(key, boxes);
      captured := face.Some?;
      if captured {
        Register(userId, embed(face.value));
      }
    }

    /** One pass of the login loop: decide on the first face if captured. */
    method LoginFrame(key: int, boxes: seq<Box>, embed: Box -> Embedding, similarity: (Embedding, Embedding) -> real)
      returns (outcome: Option<LoginOutcome>)
      ensures outcome.Some? <==> SelectFace(key, boxes).Some?
      ensures outcome.Some? ==>
        && |boxes| > 0
        && (outcome.value.Welcome? <==>
             exists i :: 0 <= i < |entries| && similarity(embed(boxes[0]), entries[i].embedding) > MATCH_THRESHOLD)
      ensures outcome.Some? && outcome.value.Welcome? ==>
        && |boxes| > 0
        && IsBestMatch(entries, embed(boxes[0]), similarity, outcome.value.similarity, Some(outcome.value.userId))
    {
      var face := SelectFace(key, boxes);
      if face.None? {
        return None;
      }
      var decision := LoginUser(entries, embed(face.value), similarity);
      outcome := Some(decision);
    }
  }
}
