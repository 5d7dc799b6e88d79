/** The in-process cache of site content, on the heap: who shares which navigation array. */
module ContentCache {
  import opened Common

  datatype NavLink = NavLink(href: string, text: string, id: string, active: bool)

  /** What one uncached load parsed; `rest` stands for every field no request writes. */
  datatype Site = Site(rest: string, nav: seq<NavLink>)

  function Cleared(nav: seq<NavLink>): seq<NavLink> {
    seq(|nav|, i requires 0 <= i < |nav| => nav[i].(active := false))
  }

  /** `same` is the case-folding comparison. */
  function Marked(nav: seq<NavLink>, id: string, same: (string, string) -> bool): seq<NavLink> {
    seq(|nav|, i requires 0 <= i < |nav| => nav[i].(active := same(nav[i].id, id)))
  }

  /** A cached value is served only while caching is on and strictly before its expiry. */
  predicate Serves(ttl: int, exp: Option<int>, now: int) {
    ttl > 0 && exp.Some? && now < exp.value
  }

  class Home {
    const rest: string
    const nav: array<NavLink>

    /** A home whose navigation nobody else holds. */
    constructor (site: Site)
      ensures fresh(nav) && Value() == site
    {
      rest := site.rest;
      nav := new NavLink[|site.nav|](i requires 0 <= i < |site.nav| => site.nav[i]);
      new;
      assert nav[..] == site.nav;
    }

    ghost function Value(): Site
      reads nav
    {
      Site(rest, nav[..])
    }
  }

  method CloneHomeForRender(h: Home) returns (out: Home)
    ensures fresh(out) && fresh(out.nav) && out.Value() == h.Value()
  {
    out := new Home(Site(h.rest, h.nav[..]));
  }

  method ClearNavInactive(h: Home)
    modifies h.nav
    ensures h.nav[..] == Cleared(old(h.nav[..]))
  {
    for i := 0 to h.nav.Length
      invariant h.nav[..i] == Cleared(old(h.nav[..]))[..i] && h.nav[i..] == old(h.nav[i..])
    {
      h.nav[i] := h.nav[i].(active := false);
    }
  }

  method SetNavActive(h: Home, id: string, same: (string, string) -> bool)
    modifies h.nav
    ensures h.nav[..] == Marked(old(h.nav[..]), id, same)
  {
    for i := 0 to h.nav.Length
      invariant h.nav[..i] == Marked(old(h.nav[..]), id, same)[..i] && h.nav[i..] == old(h.nav[i..])
    {
      h.nav[i] := h.nav[i].(active := same(h.nav[i].id, id));
    }
  }

  class Server {
    var cachedHome: Home?
    var homeExp: int
    var cachedPosts: seq<string>  // the empty list is Go's nil: it is never a hit
    var postsExp: int
    ghost var given: seq<Home>  // every home handed to a request so far

    constructor ()
      ensures Valid() && CachedHome() == None && PostsExp() == None && given == []
    {
      cachedHome, homeExp, cachedPosts, postsExp, given := null, 0, [], 0, [];
    }

    /** No two requests, and no request and the cache, share a navigation array. */
    ghost predicate Valid()
      reads this, if cachedHome != null then {cachedHome.nav} else {}
    {
      && (forall i, j :: 0 <= i < j < |given| ==> given[i].nav != given[j].nav)
      && (cachedHome != null ==>
            && cachedHome.nav[..] == Cleared(cachedHome.nav[..])
            && forall i :: 0 <= i < |given| ==> given[i].nav != cachedHome.nav)
    }

    ghost function CachedHome(): Option<Site>
      reads this, if cachedHome != null then {cachedHome.nav} else {}
    {
      if cachedHome == null then None else Some(cachedHome.Value())
    }

    function HomeExp(): Option<int>
      reads this
    {
      if cachedHome == null then None else Some(homeExp)
    }

    function PostsExp(): Option<int>
      reads this
    {
      if cachedPosts == [] then None else Some(postsExp)
    }

    method InvalidateContentCache()
      requires Valid()
      modifies this
      ensures Valid() && HomeExp() == None && PostsExp() == None && given == old(given)
    {
      cachedHome, homeExp, cachedPosts, postsExp := null, 0, [], 0;
    }

    /** `loaded` is the outcome of an uncached load, used only on a miss; it ends at `done`. */
    method LoadHome(ttl: int, now: int, loaded: Option<Site>, done: int) returns (h: Home?)
      requires Valid()
      modifies this
      ensures Valid()
      ensures h == null <==> !Serves(ttl, old(HomeExp()), now) && loaded == None
      ensures h != null ==> fresh(h.nav) && given == old(given) + [h]
      ensures h != null ==> h.Value() == if Serves(ttl, old(HomeExp()), now) then old(CachedHome()).value
                                         else Site(loaded.value.rest, Cleared(loaded.value.nav))
      ensures if Serves(ttl, old(HomeExp()), now) || loaded == None || ttl <= 0
              then CachedHome() == old(CachedHome()) && HomeExp() == old(HomeExp())
              else CachedHome() == Some(h.Value()) && HomeExp() == Some(done + ttl)
      ensures cachedPosts == old(cachedPosts) && postsExp == old(postsExp)
      ensures h == null ==> given == old(given)
    {
      if ttl > 0 && cachedHome != null && now < homeExp {
        h := CloneHomeForRender(cachedHome);
        given := given + [h];
        return;
      }
      if loaded == None {
        return null;
      }
      var fetched := new Home(loaded.value);
      ClearNavInactive(fetched);
      if ttl > 0 {
        cachedHome, homeExp := fetched, done + ttl;
      }
      h := CloneHomeForRender(fetched);
      given := given + [h];
    }

    method LoadPosts(ttl: int, now: int, loaded: Option<seq<string>>, done: int) returns (posts: Option<seq<string>>)
      requires Valid()
      modifies this
      ensures Valid() && cachedHome == old(cachedHome) && homeExp == old(homeExp) && given == old(given)
      ensures posts == if Serves(ttl, old(PostsExp()), now) then Some(old(cachedPosts)) else loaded
      ensures if Serves(ttl, old(PostsExp()), now) || loaded == None || ttl <= 0
              then cachedPosts == old(cachedPosts) && PostsExp() == old(PostsExp())
              else cachedPosts == loaded.value && PostsExp() == if loaded.value == [] then None else Some(done + ttl)
    {
      if ttl > 0 && cachedPosts != [] && now < postsExp {
        return Some(cachedPosts);
      }
      if loaded == None {
        return None;
      }
      if ttl > 0 {
        cachedPosts, postsExp := loaded.value, done + ttl;
      }
      return loaded;
    }

    /** A request marks its own home: no other request's home changes, nor the cached one. */
    method Activate(h: Home, ghost k: nat, id: string, same: (string, string) -> bool)
      requires Valid() && k < |given| && given[k] == h
      modifies h.nav
      ensures Valid() && CachedHome() == old(CachedHome())
      ensures h.Value() == Site(h.rest, Marked(old(h.nav[..]), id, same))
      ensures forall j :: 0 <= j < |given| && j != k ==> given[j].Value() == old(given[j].Value())
    {
      assert cachedHome != null ==> given[k].nav != cachedHome.nav;
      SetNavActive(h, id, same);
    }
  }
}
