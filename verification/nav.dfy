/**
 * Active navigation marker (`initActiveNav` in scripts/ui.js).
 *
 * Every `.nav .nav-link` anchor is a `Link` record; the anchors in document
 * order are an array updated in place. The marker is the pair
 * `aria-current="page"` and the `is-current` class. The page path and the
 * URL constructor are inputs: `pathname` is `location.pathname` and
 * `resolve` stands for `new URL(href, location.origin).pathname`, returning
 * `None` where the constructor throws.
 */
module Nav {
  import opened Wrappers
  import opened Text

  datatype Link = Link(
    href: Option<string>,         // the href attribute, None when absent
    keepActive: bool,             // the data-keep-active attribute is present
    ariaCurrent: Option<string>,  // the aria-current attribute, None when absent
    isCurrent: bool)              // the is-current class is present

  /** The URL constructor's pathname for an href, or None where it throws. */
  type Resolver = string -> Option<string>

  /** Either half of the marker present. */
  predicate IsMarked(l: Link) {
    l.ariaCurrent.Some? || l.isCurrent
  }

  /** Removes `aria-current` and the `is-current` class. */
  function Clear(l: Link): Link {
    l.(ariaCurrent := None, isCurrent := false)
  }

  /** Sets `aria-current="page"` and adds the `is-current` class. */
  function Mark(l: Link): Link {
    l.(ariaCurrent := Some("page"), isCurrent := true)
  }

  /** `(p || "/").toLowerCase()`: an empty path counts as the root. */
  function Normalize(p: string): (r: string)
    ensures r != []
    ensures p == "" ==> r == "/"
  {
    Lower(if p == "" then "/" else p)
  }

  /** A non-empty path normalizes to a string without upper-case letters that equals it up to ASCII case. */
  lemma NormalizeSpec(p: string)
    requires p != ""
    ensures EqIgnoreCase(p, Normalize(p))
    ensures forall i :: 0 <= i < |Normalize(p)| ==> !IsUpper(Normalize(p)[i])
  {
    LowerSpec(p);
  }

  /** Normalizing twice is normalizing once. */
  lemma NormalizeIdempotent(p: string)
    ensures Normalize(Normalize(p)) == Normalize(p)
  {
    LowerIdempotent(if p == "" then "/" else p);
  }

  /** The root, or any path ending in `/index.html`. */
  predicate IsHome(path: string) {
    path == "/" || EndsWith(path, "/index.html")
  }

  /** The trimmed href, `""` when the attribute is absent. */
  function TrimmedHref(l: Link): string {
    Trim(l.href.GetOr(""))
  }

  /** The link may be chosen at all: not kept active, a non-empty, non-absolute, non-mailto href that parses. */
  predicate Eligible(l: Link, resolve: Resolver) {
    var h := TrimmedHref(l);
    && !l.keepActive
    && h != ""
    && !StartsWith(h, "http")
    && !StartsWith(h, "mailto:")
    && resolve(h).Some?
  }

  /** The normalized path of an eligible link. */
  function LinkPath(l: Link, resolve: Resolver): string
    requires Eligible(l, resolve)
  {
    Normalize(resolve(TrimmedHref(l)).value)
  }

  /**
   * The link would be assigned to `best` by the scan: on a home path its own
   * path must be home-like, elsewhere equal to the page path.
   */
  predicate Candidate(l: Link, path: string, resolve: Resolver) {
    && Eligible(l, resolve)
    && (if IsHome(path) then IsHome(LinkPath(l, resolve)) else LinkPath(l, resolve) == path)
  }

  /** The index of the last candidate in document order, None when there is none. */
  function LastCandidate(links: seq<Link>, path: string, resolve: Resolver): (r: Option<nat>)
    ensures r.Some? ==> r.value < |links| && Candidate(links[r.value], path, resolve)
    ensures r.Some? ==> forall j :: r.value < j < |links| ==> !Candidate(links[j], path, resolve)
    ensures r.None? ==> forall j :: 0 <= j < |links| ==> !Candidate(links[j], path, resolve)
    decreases |links|
  {
    if |links| == 0 then None
    else if Candidate(links[|links| - 1], path, resolve) then Some(|links| - 1)
    else LastCandidate(links[..|links| - 1], path, resolve)
  }

  /** The last-candidate characterization has exactly one solution. */
  lemma LastCandidateUnique(links: seq<Link>, path: string, resolve: Resolver, r: Option<nat>)
    requires r.Some? ==> r.value < |links| && Candidate(links[r.value], path, resolve)
    requires r.Some? ==> forall j :: r.value < j < |links| ==> !Candidate(links[j], path, resolve)
    requires r.None? ==> forall j :: 0 <= j < |links| ==> !Candidate(links[j], path, resolve)
    ensures r == LastCandidate(links, path, resolve)
  {
  }

  /** Two link lists with the same candidates in the same places choose the same one. */
  lemma LastCandidateDeterminedByCandidates(a: seq<Link>, b: seq<Link>, path: string, resolve: Resolver)
    requires |a| == |b|
    requires forall i :: 0 <= i < |a| ==> Candidate(a[i], path, resolve) == Candidate(b[i], path, resolve)
    ensures LastCandidate(a, path, resolve) == LastCandidate(b, path, resolve)
  {
    LastCandidateUnique(b, path, resolve, LastCandidate(a, path, resolve));
  }

  /** The marker state `initActiveNav` leaves: every link cleared, then the chosen one marked. */
  function ActiveNav(links: seq<Link>, pathname: string, resolve: Resolver): (r: seq<Link>)
    ensures |r| == |links|
  {
    var best := LastCandidate(links, Normalize(pathname), resolve);
    seq(|links|, i requires 0 <= i < |links| => if best == Some(i) then Mark(links[i]) else Clear(links[i]))
  }

  /**
   * The selection scan (the second `forEach`): walks the links left to right
   * and keeps the last candidate seen.
   */
  method FindBest(links: array<Link>, path: string, resolve: Resolver) returns (best: Option<nat>)
    ensures best.Some? ==> best.value < links.Length && Candidate(links[best.value], path, resolve)
    ensures best.Some? ==> forall j :: best.value < j < links.Length ==> !Candidate(links[j], path, resolve)
    ensures best.None? ==> forall j :: 0 <= j < links.Length ==> !Candidate(links[j], path, resolve)
  {
    best := None;
    var isHome := IsHome(path);
    for i := 0 to links.Length
      invariant best.Some? ==> best.value < i && Candidate(links[best.value], path, resolve)
      invariant best.Some? ==> forall j :: best.value < j < i ==> !Candidate(links[j], path, resolve)
      invariant best.None? ==> forall j :: 0 <= j < i ==> !Candidate(links[j], path, resolve)
    {
      var a := links[i];
      if a.keepActive {
        continue;
      }
      var href := Trim(a.href.GetOr(""));
      if href == "" || StartsWith(href, "http") || StartsWith(href, "mailto:") {
        continue;
      }
      var u := resolve(href);
      if u.None? {
        continue;
      }
      var hrefPath := Normalize(u.value);
      if isHome && IsHome(hrefPath) {
        best := Some(i);
      }
      if !isHome && hrefPath == path {
        best := Some(i);
      }
    }
  }

  /** `initActiveNav`: clears the marker on every link, then marks the last candidate. */
  method InitActiveNav(links: array<Link>, pathname: string, resolve: Resolver)
    modifies links
    ensures links[..] == ActiveNav(old(links[..]), pathname, resolve)
  {
    if links.Length == 0 {
      return;
    }
    var path := Normalize(pathname);

    for i := 0 to links.Length
      invariant forall k :: 0 <= k < i ==> links[k] == Clear(old(links[k]))
      invariant forall k :: i <= k < links.Length ==> links[k] == old(links[k])
    {
      links[i] := Clear(links[i]);
    }

    ghost var original := old(links[..]);
    ghost var cleared := links[..];
    assert forall k :: 0 <= k < links.Length ==> cleared[k] == Clear(original[k]);
    var best := FindBest(links, path, resolve);
    assert best == LastCandidate(original, path, resolve) by {
      assert forall k :: 0 <= k < links.Length ==>
        Candidate(cleared[k], path, resolve) == Candidate(original[k], path, resolve);
      LastCandidateUnique(cleared, path, resolve, best);
      LastCandidateDeterminedByCandidates(cleared, original, path, resolve);
    }

    if best.Some? {
      links[best.value] := Mark(links[best.value]);
    }
    assert forall k :: 0 <= k < links.Length ==> links[k] == ActiveNav(original, pathname, resolve)[k];
  }

  // ---------- Properties of the marker state ----------

  /**
   * Every link, `data-keep-active` ones included, loses the marker unless it
   * is the chosen one; at most one link carries the marker afterwards, and it
   * carries both halves. Nothing but the marker changes.
   */
  lemma AtMostOneMarked(links: seq<Link>, pathname: string, resolve: Resolver)
    ensures var r := ActiveNav(links, pathname, resolve);
      forall i, j :: 0 <= i < |r| && 0 <= j < |r| && IsMarked(r[i]) && IsMarked(r[j]) ==> i == j
    ensures var r := ActiveNav(links, pathname, resolve);
      forall i :: 0 <= i < |r| ==> r[i] == Clear(links[i]) || r[i] == Mark(links[i])
    ensures var r := ActiveNav(links, pathname, resolve);
      forall i :: 0 <= i < |r| && IsMarked(r[i]) ==> r[i].ariaCurrent == Some("page") && r[i].isCurrent
  {
  }

  /**
   * A marked link is eligible: not `data-keep-active`, with a trimmed href
   * that is non-empty, starts with neither `http` nor `mailto:`, and parses.
   */
  lemma MarkedIsEligible(links: seq<Link>, pathname: string, resolve: Resolver, i: nat)
    requires i < |links|
    requires IsMarked(ActiveNav(links, pathname, resolve)[i])
    ensures !links[i].keepActive
    ensures TrimmedHref(links[i]) != ""
    ensures !StartsWith(TrimmedHref(links[i]), "http") && !StartsWith(TrimmedHref(links[i]), "mailto:")
    ensures resolve(TrimmedHref(links[i])).Some?
  {
  }

  /** A link whose eligible path equals `path`. */
  predicate PathMatch(l: Link, path: string, resolve: Resolver) {
    Eligible(l, resolve) && LinkPath(l, resolve) == path
  }

  /** A link whose eligible path is home-like. */
  predicate HomeMatch(l: Link, resolve: Resolver) {
    Eligible(l, resolve) && IsHome(LinkPath(l, resolve))
  }

  /**
   * Off the home page, link `i` ends up marked exactly when it is an eligible
   * link whose lower-cased path equals the lower-cased page path and no later
   * eligible link has that path; so none is marked when no link matches.
   */
  lemma OffHomeMarksLastExactMatch(links: seq<Link>, pathname: string, resolve: Resolver)
    requires !IsHome(Normalize(pathname))
    ensures var r := ActiveNav(links, pathname, resolve);
      forall i :: 0 <= i < |links| ==>
        (IsMarked(r[i]) <==>
          PathMatch(links[i], Normalize(pathname), resolve) &&
          forall j :: i < j < |links| ==> !PathMatch(links[j], Normalize(pathname), resolve))
    ensures (forall j :: 0 <= j < |links| ==> !PathMatch(links[j], Normalize(pathname), resolve)) ==>
      forall i :: 0 <= i < |links| ==> !IsMarked(ActiveNav(links, pathname, resolve)[i])
  {
    var path := Normalize(pathname);
    assert forall j :: 0 <= j < |links| ==>
      Candidate(links[j], path, resolve) == PathMatch(links[j], path, resolve);
  }

  /**
   * On a home path (`/` or ending in `/index.html`), link `i` ends up marked
   * exactly when it is the last eligible link whose path is home-like.
   */
  lemma OnHomeMarksLastHomeLink(links: seq<Link>, pathname: string, resolve: Resolver)
    requires IsHome(Normalize(pathname))
    ensures var r := ActiveNav(links, pathname, resolve);
      forall i :: 0 <= i < |links| ==>
        (IsMarked(r[i]) <==>
          HomeMatch(links[i], resolve) && forall j :: i < j < |links| ==> !HomeMatch(links[j], resolve))
  {
    var path := Normalize(pathname);
    assert forall j :: 0 <= j < |links| ==>
      Candidate(links[j], path, resolve) == HomeMatch(links[j], resolve);
  }

  /** Running `initActiveNav` twice leaves the same marker state as running it once. */
  lemma ActiveNavIdempotent(links: seq<Link>, pathname: string, resolve: Resolver)
    ensures ActiveNav(ActiveNav(links, pathname, resolve), pathname, resolve) == ActiveNav(links, pathname, resolve)
  {
    var path := Normalize(pathname);
    var once := ActiveNav(links, pathname, resolve);
    assert forall i :: 0 <= i < |links| ==>
      Candidate(once[i], path, resolve) == Candidate(links[i], path, resolve);
    LastCandidateDeterminedByCandidates(once, links, path, resolve);
  }

  /** On the home page the code marks the home link (the marker is not suppressed there). */
  lemma HomePageMarksHomeLink()
    ensures var home := Link(Some("/"), false, None, false);
      ActiveNav([home], "/", (h: string) => Some(h)) == [Mark(home)]
  {
    var home := Link(Some("/"), false, None, false);
    assert TrimStart("/") == "/";
    assert TrimEnd("/") == "/";
    assert Candidate(home, "/", (h: string) => Some(h));
  }
}
