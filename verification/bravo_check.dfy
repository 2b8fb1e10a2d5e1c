/**
 `check_bravo_photos`: one poll of the VK community's wall. The fetched posts are
 walked in order; a post is skipped when its id is already known, when it is a
 repost (`copy_history`) or when it is pinned. Every other post is marked known
 before anything is sent, its photo attachments become one media group, its text
 becomes the caption, and a send is issued only when there is at least one photo.
 The enlarged known set is saved at the end. The fetch is an input sequence
 (a failed fetch yields no posts) and each send is recorded rather than performed;
 `SendRetry.SendFiles` models what happens to it.
 */
module BravoCheck {
  import opened Common
  import LinksStore
  import Mentions
  import SendRetry

  type Id = LinksStore.Id
  type Url = SendRetry.Url

  /** The store key of the VK community's posts. */
  const BravoKey: string := "bravo_posts"
  /** Seconds paused after each post that was not skipped. */
  const PostPause: nat := 5

  /** A wall-post attachment: its `type` and, for photos, `photo.orig_photo.url`. */
  datatype Attachment = Attachment(kind: string, photoUrl: Url)

  /** The fields of a wall post the checker reads; the two flags are the truthiness of `copy_history` and `is_pinned`. */
  datatype Post = Post(id: Id, copyHistory: bool, isPinned: bool, attachments: seq<Attachment>, text: string)

  /** One `send_files(client, media, caption)` call, tagged with the post it came from. */
  datatype Send = Send(postId: Id, media: seq<Url>, caption: Option<string>)

  /** The in-memory outcome of the loop: the known set to save, the sends in order, the pauses taken. */
  datatype CycleResult = CycleResult(known: set<Id>, sends: seq<Send>, pauses: nat)

  /** Neither a repost nor pinned. */
  predicate Eligible(p: Post)
  {
    !p.copyHistory && !p.isPinned
  }

  predicate IsPhoto(a: Attachment)
  {
    a.kind == "photo"
  }

  /** The urls of the photo attachments, in attachment order. */
  function Media(atts: seq<Attachment>): (urls: seq<Url>)
    ensures |urls| <= |atts|
  {
    if atts == [] then []
    else (if IsPhoto(atts[0]) then [atts[0].photoUrl] else []) + Media(atts[1..])
  }

  /** The send a processed post gives rise to, if it has any photo. */
  function SendFor(p: Post): (s: Option<Send>)
    ensures s.Some? <==> exists i :: 0 <= i < |p.attachments| && IsPhoto(p.attachments[i])
    ensures s.Some? ==> s.value.postId == p.id && s.value.media == Media(p.attachments)
    ensures s.Some? ==> s.value.caption == Mentions.Caption(p.text)
  {
    MediaEmptyIff(p.attachments);
    var media := Media(p.attachments);
    if media == [] then None else Some(Send(p.id, media, Mentions.Caption(p.text)))
  }

  /** The ids of the eligible posts of a batch, duplicates or not. */
  function EligibleIds(posts: seq<Post>): (ids: set<Id>)
  {
    set i | 0 <= i < |posts| && Eligible(posts[i]) :: posts[i].id
  }

  /** Every send is for an id in `after` that was not in `before`. */
  predicate FreshSends(sends: seq<Send>, before: set<Id>, after: set<Id>)
  {
    forall k :: 0 <= k < |sends| ==> sends[k].postId in after && sends[k].postId !in before
  }

  /** No two sends come from posts with the same id. */
  predicate DistinctPostIds(sends: seq<Send>)
  {
    forall k, l :: 0 <= k < l < |sends| ==> sends[k].postId != sends[l].postId
  }

  /** Every send carries at least one photo. */
  predicate PhotoSends(sends: seq<Send>)
  {
    forall k :: 0 <= k < |sends| ==> sends[k].media != []
  }

  /**
   The `for post in data` loop. The saved set is the loaded one plus the id of
   every eligible post; only ids not known before are sent, each at most once;
   every send carries at least one photo; one pause per processed post, and each
   processed post adds exactly one new id.
   */
  function Process(known: set<Id>, posts: seq<Post>): (r: CycleResult)
    ensures r.known == known + EligibleIds(posts)
    ensures FreshSends(r.sends, known, r.known)
    ensures DistinctPostIds(r.sends)
    ensures PhotoSends(r.sends)
    ensures |r.known| == |known| + r.pauses
    ensures |r.sends| <= r.pauses <= |posts|
    decreases |posts|
  {
    if posts == [] then
      assert EligibleIds(posts) == {};
      CycleResult(known, [], 0)
    else
      var p := posts[0];
      if p.id in known || !Eligible(p) then
        KnownAfterSkip(known, posts);
        Process(known, posts[1..])
      else
        KnownAfterAdmit(known, posts);
        var rest := Process(known + {p.id}, posts[1..]);
        AdmitStep(known, p, rest);
        Admit(p, rest)
  }

  /** The result of processing `p` in front of the result `rest` of processing the posts after it. */
  function Admit(p: Post, rest: CycleResult): (r: CycleResult)
    ensures r.known == rest.known && r.pauses == rest.pauses + 1
    ensures |rest.sends| <= |r.sends| <= |rest.sends| + 1
  {
    var sends := match SendFor(p)
      case Some(s) => [s] + rest.sends
      case None => rest.sends;
    CycleResult(rest.known, sends, rest.pauses + 1)
  }

  lemma AdmitStep(known: set<Id>, p: Post, rest: CycleResult)
    requires p.id !in known
    requires FreshSends(rest.sends, known + {p.id}, rest.known)
    requires DistinctPostIds(rest.sends)
    requires PhotoSends(rest.sends)
    requires known + {p.id} <= rest.known
    requires |rest.known| == |known + {p.id}| + rest.pauses
    requires |rest.sends| <= rest.pauses
    ensures FreshSends(Admit(p, rest).sends, known, rest.known)
    ensures DistinctPostIds(Admit(p, rest).sends)
    ensures PhotoSends(Admit(p, rest).sends)
    ensures |rest.known| == |known| + Admit(p, rest).pauses
    ensures |Admit(p, rest).sends| <= Admit(p, rest).pauses
  {
    assert |known + {p.id}| == |known| + 1;
    var sends := Admit(p, rest).sends;
    if SendFor(p).Some? {
      assert sends == [SendFor(p).value] + rest.sends;
      forall k, l | 0 <= k < l < |sends| ensures sends[k].postId != sends[l].postId {
        assert sends[l] == rest.sends[l - 1];
        if k > 0 {
          assert sends[k] == rest.sends[k - 1];
        }
      }
      forall k | 0 <= k < |sends|
        ensures sends[k].postId in rest.known && sends[k].postId !in known && sends[k].media != []
      {
        if k > 0 {
          assert sends[k] == rest.sends[k - 1];
        }
      }
    }
  }

  /** A skipped post adds nothing the loaded set does not already cover. */
  lemma KnownAfterSkip(known: set<Id>, posts: seq<Post>)
    requires posts != [] && (posts[0].id in known || !Eligible(posts[0]))
    ensures known + EligibleIds(posts) == known + EligibleIds(posts[1..])
  {
    EligibleIdsCons(posts);
  }

  /** A processed post contributes exactly its own id. */
  lemma KnownAfterAdmit(known: set<Id>, posts: seq<Post>)
    requires posts != [] && Eligible(posts[0])
    ensures known + EligibleIds(posts) == (known + {posts[0].id}) + EligibleIds(posts[1..])
  {
    EligibleIdsCons(posts);
  }

  lemma EligibleIdsCons(posts: seq<Post>)
    requires posts != []
    ensures EligibleIds(posts) ==
      (if Eligible(posts[0]) then {posts[0].id} else {}) + EligibleIds(posts[1..])
  {
    var tail := posts[1..];
    forall x | x in EligibleIds(posts)
      ensures x in (if Eligible(posts[0]) then {posts[0].id} else {}) + EligibleIds(tail)
    {
      var i :| 0 <= i < |posts| && Eligible(posts[i]) && posts[i].id == x;
      if i > 0 {
        assert tail[i - 1] == posts[i];
      }
    }
    forall x | x in EligibleIds(tail) ensures x in EligibleIds(posts) {
      var i :| 0 <= i < |tail| && Eligible(tail[i]) && tail[i].id == x;
      assert posts[i + 1] == tail[i];
    }
  }

  /** Photo urls of a concatenation are those of the parts, in order. */
  lemma {:induction false} MediaAppend(a: seq<Attachment>, b: seq<Attachment>)
    ensures Media(a + b) == Media(a) + Media(b)
    decreases |a|
  {
    if a != [] {
      assert (a + b)[1..] == a[1..] + b;
      MediaAppend(a[1..], b);
    } else {
      assert a + b == b;
    }
  }

  /** A post yields no media exactly when none of its attachments is a photo. */
  lemma {:induction false} MediaEmptyIff(atts: seq<Attachment>)
    ensures Media(atts) == [] <==> forall i :: 0 <= i < |atts| ==> !IsPhoto(atts[i])
    decreases |atts|
  {
    if atts != [] {
      MediaEmptyIff(atts[1..]);
      assert forall i :: 1 <= i < |atts| ==> atts[i] == atts[1..][i - 1];
    }
  }

  /** Every url sent comes from a photo attachment of the post. */
  lemma {:induction false} MediaFromPhotos(atts: seq<Attachment>, u: Url)
    requires u in Media(atts)
    ensures exists i :: 0 <= i < |atts| && IsPhoto(atts[i]) && atts[i].photoUrl == u
    decreases |atts|
  {
    if !(IsPhoto(atts[0]) && atts[0].photoUrl == u) {
      MediaFromPhotos(atts[1..], u);
      var i :| 0 <= i < |atts[1..]| && IsPhoto(atts[1..][i]) && atts[1..][i].photoUrl == u;
      assert atts[i + 1] == atts[1..][i];
    }
  }

  /**
   Reference reading of the skip rules, independent of the loop: post `i` is
   processed exactly when it is eligible, its id was not loaded, and no earlier
   eligible post of the batch carries the same id.
   */
  predicate Admitted(known: set<Id>, posts: seq<Post>, i: nat)
    requires i < |posts|
  {
    && Eligible(posts[i])
    && posts[i].id !in known
    && forall j :: 0 <= j < i && Eligible(posts[j]) ==> posts[j].id != posts[i].id
  }

  /** The sends the reference reading expects from post `i` on, in fetch order. */
  function ExpectedSends(known: set<Id>, posts: seq<Post>, i: nat): (sends: seq<Send>)
    requires i <= |posts|
    ensures |sends| <= |posts| - i
    decreases |posts| - i
  {
    if i == |posts| then []
    else
      (if Admitted(known, posts, i) && SendFor(posts[i]).Some? then [SendFor(posts[i]).value] else [])
      + ExpectedSends(known, posts, i + 1)
  }

  lemma EligibleIdsSnoc(posts: seq<Post>, i: nat)
    requires i < |posts|
    ensures EligibleIds(posts[..i + 1]) ==
      EligibleIds(posts[..i]) + (if Eligible(posts[i]) then {posts[i].id} else {})
  {
    var a := posts[..i];
    var b := posts[..i + 1];
    assert forall j :: 0 <= j < i ==> a[j] == posts[j] && b[j] == posts[j];
    assert b[i] == posts[i];
    forall x | x in EligibleIds(b)
      ensures x in EligibleIds(a) + (if Eligible(posts[i]) then {posts[i].id} else {})
    {
      var j :| 0 <= j < |b| && Eligible(b[j]) && b[j].id == x;
      if j < i {
        assert a[j] == b[j];
      }
    }
  }

  /** Membership in the ids of the eligible posts before `i`. */
  lemma EligibleIdsPrefix(posts: seq<Post>, i: nat, x: Id)
    requires i <= |posts|
    ensures x in EligibleIds(posts[..i]) <==> exists j :: 0 <= j < i && Eligible(posts[j]) && posts[j].id == x
  {
    var a := posts[..i];
    if x in EligibleIds(a) {
      var j :| 0 <= j < |a| && Eligible(a[j]) && a[j].id == x;
      assert a[j] == posts[j];
    }
    if exists j :: 0 <= j < i && Eligible(posts[j]) && posts[j].id == x {
      var j :| 0 <= j < i && Eligible(posts[j]) && posts[j].id == x;
      assert a[j] == posts[j];
    }
  }

  /** The known set the loop holds when it reaches post `i`. */
  function KnownBefore(known: set<Id>, posts: seq<Post>, i: nat): (k: set<Id>)
    requires i <= |posts|
    ensures known <= k
  {
    known + EligibleIds(posts[..i])
  }

  /** The loop's skip test at post `i` agrees with the reference reading, and the known set moves on by the post's id when it is eligible. */
  lemma ReferenceStep(known: set<Id>, posts: seq<Post>, i: nat)
    requires i < |posts|
    ensures Admitted(known, posts, i) <==> Eligible(posts[i]) && posts[i].id !in KnownBefore(known, posts, i)
    ensures KnownBefore(known, posts, i + 1) ==
      KnownBefore(known, posts, i) + (if Eligible(posts[i]) then {posts[i].id} else {})
  {
    EligibleIdsSnoc(posts, i);
    EligibleIdsPrefix(posts, i, posts[i].id);
  }

  /** What the loop does with post `i` in terms of the rest of the batch. */
  lemma ProcessAt(known: set<Id>, posts: seq<Post>, i: nat)
    requires i < |posts|
    ensures var k := KnownBefore(known, posts, i);
      Process(k, posts[i..]) ==
        if Admitted(known, posts, i) then Admit(posts[i], Process(KnownBefore(known, posts, i + 1), posts[i + 1..]))
        else Process(KnownBefore(known, posts, i + 1), posts[i + 1..])
  {
    var q := posts[i..];
    assert q[0] == posts[i] && q[1..] == posts[i + 1..];
    ReferenceStep(known, posts, i);
    var k := KnownBefore(known, posts, i);
    var next := KnownBefore(known, posts, i + 1);
    if Admitted(known, posts, i) {
      assert next == k + {posts[i].id};
      ProcessAdmitsHead(k, q);
    } else {
      assert next == k;
      ProcessSkipsHead(k, q);
    }
  }

  lemma {:induction false} ProcessMatchesReferenceFrom(known: set<Id>, posts: seq<Post>, i: nat)
    requires i <= |posts|
    ensures Process(KnownBefore(known, posts, i), posts[i..]).sends == ExpectedSends(known, posts, i)
    decreases |posts| - i
  {
    if i < |posts| {
      ProcessAt(known, posts, i);
      ProcessMatchesReferenceFrom(known, posts, i + 1);
    } else {
      assert posts[i..] == [];
    }
  }

  /** The loop sends exactly what the reference reading expects, in fetch order. */
  lemma ProcessMatchesReference(known: set<Id>, posts: seq<Post>)
    ensures Process(known, posts).sends == ExpectedSends(known, posts, 0)
  {
    ProcessMatchesReferenceFrom(known, posts, 0);
    assert posts[..0] == [] && posts[0..] == posts;
    assert EligibleIds(posts[..0]) == {};
    assert KnownBefore(known, posts, 0) == known;
  }

  /** Against a known set that already covers the batch, the loop sends nothing and changes nothing. */
  lemma {:induction false} ProcessCoveredBatch(known: set<Id>, posts: seq<Post>)
    requires EligibleIds(posts) <= known
    ensures Process(known, posts) == CycleResult(known, [], 0)
    decreases |posts|
  {
    if posts != [] {
      EligibleIdsCons(posts);
      ProcessCoveredBatch(known, posts[1..]);
    }
  }

  /** The loop on a batch whose first post is processed. */
  lemma ProcessAdmitsHead(known: set<Id>, posts: seq<Post>)
    requires posts != [] && Eligible(posts[0]) && posts[0].id !in known
    ensures Process(known, posts) == Admit(posts[0], Process(known + {posts[0].id}, posts[1..]))
  {
  }

  /** The loop on a batch whose first post is skipped. */
  lemma ProcessSkipsHead(known: set<Id>, posts: seq<Post>)
    requires posts != [] && (!Eligible(posts[0]) || posts[0].id in known)
    ensures Process(known, posts) == Process(known, posts[1..])
  {
  }

  /** Re-running the loop on the same batch against the set it produced sends nothing. */
  lemma ProcessIdempotent(known: set<Id>, posts: seq<Post>)
    ensures var r := Process(known, posts);
      Process(r.known, posts) == CycleResult(r.known, [], 0)
  {
    ProcessCoveredBatch(Process(known, posts).known, posts);
  }

  /** An id that no eligible post carries is never sent and keeps its loaded membership. */
  lemma IneligibleIdUntouched(known: set<Id>, posts: seq<Post>, x: Id)
    requires forall i :: 0 <= i < |posts| && posts[i].id == x ==> !Eligible(posts[i])
    ensures x in Process(known, posts).known <==> x in known
    ensures forall k :: 0 <= k < |Process(known, posts).sends| ==> Process(known, posts).sends[k].postId != x
  {
    assert x !in EligibleIds(posts);
  }

  /**
   The outcome of one whole `check_bravo_photos` call. `pausedSeconds` adds up
   its `asyncio.sleep(5)` calls between posts; the backoff sleeps inside
   `send_files` are not counted here (`SendRetry` states them).
   */
  datatype CycleOutcome = CycleOutcome(file: LinksStore.LinksFile, sends: seq<Send>, pausedSeconds: nat)

  /**
   `check_bravo_photos`: load the known set, run the loop over the fetched posts,
   save the enlarged set. An unreadable links file raises out of `load_links`
   before anything is fetched or sent.
   */
  function CheckBravoPhotos(f: LinksStore.LinksFile, posts: seq<Post>): (r: Result<CycleOutcome>)
    ensures r.Err? <==> f.Unreadable?
    ensures r.Ok? ==>
      LinksStore.Load(r.value.file, BravoKey) == Ok(LinksStore.Load(f, BravoKey).value + EligibleIds(posts))
    ensures r.Ok? ==>
      forall k :: k != BravoKey ==> LinksStore.Load(r.value.file, k) == LinksStore.Load(f, k)
    ensures r.Ok? ==>
      r.value.pausedSeconds == PostPause * |EligibleIds(posts) - LinksStore.Load(f, BravoKey).value|
    ensures r.Ok? ==>
      r.value.sends == ExpectedSends(LinksStore.Load(f, BravoKey).value, posts, 0)
    ensures r.Ok? ==>
      && FreshSends(r.value.sends, LinksStore.Load(f, BravoKey).value, LinksStore.Load(f, BravoKey).value + EligibleIds(posts))
      && DistinctPostIds(r.value.sends)
      && PhotoSends(r.value.sends)
  {
    match LinksStore.Load(f, BravoKey)
    case Err(e) => Err(e)
    case Ok(known) =>
      var c := Process(known, posts);
      NewIdsCount(known, EligibleIds(posts));
      ProcessMatchesReference(known, posts);
      match LinksStore.Save(f, BravoKey, c.known)
      case Err(e) => Err(e)
      case Ok(saved) => Ok(CycleOutcome(saved, c.sends, PostPause * c.pauses))
  }

  /** Adding a set of ids grows the known set by exactly the ids it did not hold. */
  lemma NewIdsCount(known: set<Id>, ids: set<Id>)
    ensures |known + ids| == |known| + |ids - known|
  {
    assert known + ids == known + (ids - known);
    assert known * (ids - known) == {};
  }

  /** A second run over the same batch against the file the first run saved sends nothing and leaves the file as it was. */
  lemma CheckTwiceSendsNothing(f: LinksStore.LinksFile, posts: seq<Post>)
    requires !f.Unreadable?
    ensures var first := CheckBravoPhotos(f, posts).value;
      var second := CheckBravoPhotos(first.file, posts);
      second.Ok? && second.value.sends == [] && second.value.file == first.file
  {
    var known := LinksStore.Load(f, BravoKey).value;
    var first := CheckBravoPhotos(f, posts).value;
    var again := LinksStore.Load(first.file, BravoKey).value;
    assert again == Process(known, posts).known;
    ProcessIdempotent(known, posts);
    var data := first.file.data;
    assert data[BravoKey := again] == data;
  }
}
