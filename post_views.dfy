/** The post endpoints' visibility and permission rules (api/views.py:
    PostListView, PostDetailView, UserPostListView, PostPhotoDeleteView).
    A query set is a sequence of rows; the requesting principal is explicit:
    None for an anonymous request, Some(id) for an authenticated user. */
module PostViews {
  import opened Wrappers
  import opened Text
  import opened Models

  datatype Status = Draft | Published | Archived

  /** The columns of a post row the rules look at. */
  datatype Post = Post(id: int, author: UserId, rubric: Option<string>, status: Status, address: string)

  type Viewer = Option<UserId>

  /** The rows of s that satisfy keep, in their original order. */
  function Filter(s: seq<Post>, keep: Post -> bool): (r: seq<Post>)
    ensures |r| <= |s|
    ensures forall x :: x in r <==> x in s && keep(x)
    decreases |s|
  {
    if s == [] then []
    else (if keep(s[0]) then [s[0]] else []) + Filter(s[1..], keep)
  }

  /** r keeps some of the elements of s, in the same relative order. */
  predicate Subsequence(r: seq<Post>, s: seq<Post>)
    decreases |s|
  {
    r == [] || (s != [] && ((r[0] == s[0] && Subsequence(r[1..], s[1..])) || Subsequence(r, s[1..])))
  }

  lemma {:induction false} FilterIsSubsequence(s: seq<Post>, keep: Post -> bool)
    ensures Subsequence(Filter(s, keep), s)
    decreases |s|
  {
    if s != [] {
      FilterIsSubsequence(s[1..], keep);
      if keep(s[0]) {
        assert Filter(s, keep) == [s[0]] + Filter(s[1..], keep);
        assert Filter(s, keep)[1..] == Filter(s[1..], keep);
      } else {
        assert Filter(s, keep) == Filter(s[1..], keep);
      }
    }
  }

  /** A query parameter is applied only when present and non-empty. */
  predicate Given(param: Option<string>) {
    param.Some? && param.value != ""
  }

  predicate IsAuthor(p: Post, viewer: Viewer) {
    viewer.Some? && p.author == viewer.value
  }

  /** A post is listed for a viewer when it is published or theirs. */
  predicate Visible(p: Post, viewer: Viewer) {
    p.status == Published || IsAuthor(p, viewer)
  }

  /** `address__icontains`: case-insensitive substring match. */
  predicate AddressMatches(p: Post, query: string) {
    Contains(Lower(p.address), Lower(query))
  }

  /** `?rubric=` : exact rubric name. */
  function ByRubric(posts: seq<Post>, rubric: Option<string>): (r: seq<Post>)
    ensures Subsequence(r, posts)
    ensures forall p :: p in r <==> p in posts && (Given(rubric) ==> p.rubric == Some(rubric.value))
  {
    if Given(rubric) then
      var keep := (p: Post) => p.rubric == Some(rubric.value);
      FilterIsSubsequence(posts, keep);
      Filter(posts, keep)
    else
      SubsequenceRefl(posts);
      posts
  }

  /** `?address=` : case-insensitive substring of the post's address. */
  function ByAddress(posts: seq<Post>, address: Option<string>): (r: seq<Post>)
    ensures Subsequence(r, posts)
    ensures forall p :: p in r <==> p in posts && (Given(address) ==> AddressMatches(p, address.value))
  {
    if Given(address) then
      var keep := (p: Post) => AddressMatches(p, address.value);
      FilterIsSubsequence(posts, keep);
      Filter(posts, keep)
    else
      SubsequenceRefl(posts);
      posts
  }

  lemma {:induction false} SubsequenceRefl(s: seq<Post>)
    ensures Subsequence(s, s)
    decreases |s|
  {
    if s != [] { SubsequenceRefl(s[1..]); }
  }

  lemma {:induction false} SubsequenceTrans(a: seq<Post>, b: seq<Post>, c: seq<Post>)
    requires Subsequence(a, b) && Subsequence(b, c)
    ensures Subsequence(a, c)
    decreases |c|
  {
    if a != [] {
      assert c != [];
      if b[0] == c[0] && Subsequence(b[1..], c[1..]) {
        if a[0] == b[0] && Subsequence(a[1..], b[1..]) {
          SubsequenceTrans(a[1..], b[1..], c[1..]);
        } else {
          SubsequenceTrans(a, b[1..], c[1..]);
        }
      } else {
        SubsequenceTrans(a, b, c[1..]);
      }
    }
  }

  /** The status gate: anonymous viewers see published posts only; an
      authenticated one also sees their own. */
  function StatusGate(posts: seq<Post>, viewer: Viewer): (r: seq<Post>)
    ensures Subsequence(r, posts)
    ensures forall p :: p in r <==> p in posts && Visible(p, viewer)
  {
    var keep := if viewer.Some? then (p: Post) => p.status == Published || p.author == viewer.value
                else (p: Post) => p.status == Published;
    FilterIsSubsequence(posts, keep);
    Filter(posts, keep)
  }

  /** GET /posts/: rubric filter, then address filter, then the status gate. */
  function ListPosts(posts: seq<Post>, viewer: Viewer, rubric: Option<string>, address: Option<string>): seq<Post> {
    StatusGate(ByAddress(ByRubric(posts, rubric), address), viewer)
  }

  /** The listing keeps, in their original order, exactly the posts that
      match both filters and that the viewer may see. */
  lemma ListPostsSpec(posts: seq<Post>, viewer: Viewer, rubric: Option<string>, address: Option<string>)
    ensures Subsequence(ListPosts(posts, viewer, rubric, address), posts)
    ensures forall p :: p in ListPosts(posts, viewer, rubric, address) <==>
      && p in posts
      && (Given(rubric) ==> p.rubric == Some(rubric.value))
      && (Given(address) ==> AddressMatches(p, address.value))
      && Visible(p, viewer)
  {
    var a := ByRubric(posts, rubric);
    var b := ByAddress(a, address);
    SubsequenceTrans(b, a, posts);
    SubsequenceTrans(StatusGate(b, viewer), b, posts);
  }

  /** An anonymous listing holds published posts only; an authenticated
      author's listing also holds their own drafts and archived posts. */
  lemma AnonymousSeesPublishedOnly(posts: seq<Post>, rubric: Option<string>, address: Option<string>)
    ensures forall p :: p in ListPosts(posts, None, rubric, address) ==> p.status == Published
  {
    ListPostsSpec(posts, None, rubric, address);
  }

  lemma AuthorSeesOwnPosts(posts: seq<Post>, me: UserId)
    ensures forall p :: p in posts && p.author == me ==> p in ListPosts(posts, Some(me), None, None)
  {
    ListPostsSpec(posts, Some(me), None, None);
  }

  /** GET /users/{userId}/posts/: that user's posts, all of them for the
      user themself and the published ones for anyone else; then the address
      and rubric filters. */
  function UserPosts(posts: seq<Post>, viewer: Viewer, userId: UserId,
                     rubric: Option<string>, address: Option<string>): (r: seq<Post>)
    ensures Subsequence(r, posts)
    ensures forall p :: p in r ==> p.author == userId
    ensures viewer != Some(userId) ==> forall p :: p in r ==> p.status == Published
    ensures forall p :: p in r <==>
      && p in posts && p.author == userId
      && (viewer != Some(userId) ==> p.status == Published)
      && (Given(rubric) ==> p.rubric == Some(rubric.value))
      && (Given(address) ==> AddressMatches(p, address.value))
  {
    var keep := if viewer == Some(userId) then (p: Post) => p.author == userId
                else (p: Post) => p.author == userId && p.status == Published;
    var base := Filter(posts, keep);
    FilterIsSubsequence(posts, keep);
    var b := ByAddress(base, address);
    var r := ByRubric(b, rubric);
    SubsequenceTrans(b, base, posts);
    SubsequenceTrans(r, b, posts);
    r
  }

  datatype Method = GET | HEAD | OPTIONS | POST | PUT | PATCH | DELETE

  predicate IsWrite(m: Method) {
    m == PUT || m == PATCH || m == DELETE
  }

  /** Outcome of a permission check. A denial of an anonymous request is
      reported as "not authenticated" (401), because the view authenticates
      by token; a denial of an authenticated one as forbidden (403). */
  datatype Decision = Allow | Unauthenticated | Forbidden(message: string)

  const NotAuthorMessage: string := "Вы не автор этого поста"
  const NotPublishedMessage: string := "Пост не опубликован"

  function Deny(viewer: Viewer, message: string): (d: Decision)
    ensures d != Allow
  {
    if viewer.None? then Unauthenticated else Forbidden(message)
  }

  /** `PostDetailView.check_object_permissions` as written: writes need the
      author; the publication gate is applied to method GET only. */
  function DetailAccessAsWritten(m: Method, p: Post, viewer: Viewer): (d: Decision)
    ensures IsWrite(m) ==> (d == Allow <==> IsAuthor(p, viewer))
    ensures m == GET ==> (d == Allow <==> Visible(p, viewer))
    ensures !IsWrite(m) && m != GET ==> d == Allow
    ensures d != Allow ==> d == Deny(viewer, if IsWrite(m) then NotAuthorMessage else NotPublishedMessage)
  {
    if IsWrite(m) && !IsAuthor(p, viewer) then Deny(viewer, NotAuthorMessage)
    else if m == GET && p.status != Published && !IsAuthor(p, viewer) then Deny(viewer, NotPublishedMessage)
    else Allow
  }

  /** HEAD is served by the same retrieve handler as GET, but skips the
      publication gate: a stranger's HEAD on a draft is allowed while the
      GET is refused. */
  lemma HeadBypassesPublicationGate()
    ensures var draft := Post(1, 7, None, Draft, "");
      && DetailAccessAsWritten(GET, draft, Some(8)) == Forbidden(NotPublishedMessage)
      && DetailAccessAsWritten(HEAD, draft, Some(8)) == Allow
  {
  }

  /** The methods served by the retrieve handler. */
  predicate IsRead(m: Method) {
    m == GET || m == HEAD
  }

  /** Detail permission with the publication gate applied to every read. */
  function DetailAccess(m: Method, p: Post, viewer: Viewer): (d: Decision)
    ensures IsWrite(m) ==> (d == Allow <==> IsAuthor(p, viewer))
    ensures IsRead(m) ==> (d == Allow <==> Visible(p, viewer))
    ensures d != Allow ==> d == Deny(viewer, if IsWrite(m) then NotAuthorMessage else NotPublishedMessage)
    ensures !IsWrite(m) && !IsRead(m) ==> d == Allow
  {
    if IsWrite(m) && !IsAuthor(p, viewer) then Deny(viewer, NotAuthorMessage)
    else if IsRead(m) && p.status != Published && !IsAuthor(p, viewer) then Deny(viewer, NotPublishedMessage)
    else Allow
  }

  /** The corrected rule differs from the written one only on HEAD. */
  lemma DetailAccessAgreesExceptHead(m: Method, p: Post, viewer: Viewer)
    requires m != HEAD
    ensures DetailAccess(m, p, viewer) == DetailAccessAsWritten(m, p, viewer)
  {
  }

  /** A post that may be read in detail is also listed for that viewer. */
  lemma DetailReadAgreesWithListing(posts: seq<Post>, p: Post, viewer: Viewer)
    requires p in posts
    ensures DetailAccess(GET, p, viewer) == Allow <==> p in ListPosts(posts, viewer, None, None)
  {
    ListPostsSpec(posts, viewer, None, None);
  }

  /** `PostPhotoDeleteView`: authentication is required, and only the author
      of the photo's post may delete it. */
  function PhotoDeleteAccess(postAuthor: UserId, viewer: Viewer): (d: Decision)
    ensures d == Allow <==> viewer == Some(postAuthor)
    ensures viewer.None? ==> d == Unauthenticated
    ensures viewer.Some? && viewer.value != postAuthor ==> d == Forbidden(NotAuthorMessage)
  {
    if viewer.None? then Unauthenticated
    else if viewer.value != postAuthor then Forbidden(NotAuthorMessage)
    else Allow
  }
}
