/**
 * The public navigation bar: a link is underlined when the current path
 * is its target or lies under it; the home link only for the home page.
 */
module Navbar {
  import opened Seqs
  import opened Text

  const LoginHref: string := "/login"
  const MembershipInfoHref: string := "/membership-info"

  /**
   * `pathname === href || (href !== "/" && pathname?.startsWith(href))`;
   * the path is absent before the router knows it.
   */
  predicate IsActive(pathname: Option<string>, href: string) {
    pathname == Some(href) || (href != "/" && pathname.Some? && StartsWith(pathname.value, href))
  }

  /**
   * The home link is active on "/" alone, any other link on every path it
   * prefixes (its own included), and no link without a path.
   */
  lemma IsActiveMeaning(pathname: Option<string>, href: string)
    ensures pathname.None? ==> !IsActive(pathname, href)
    ensures href == "/" ==> (IsActive(pathname, href) <==> pathname == Some("/"))
    ensures href != "/" && pathname.Some? ==> (IsActive(pathname, href) <==> StartsWith(pathname.value, href))
  {
    if href != "/" && pathname == Some(href) {
      assert pathname.value[..|href|] == href;
    }
  }

  /** Prefix matching is by characters, not by path segments: "/loginx" lights up "/login". */
  lemma LoginxMatchesLogin()
    ensures IsActive(Some("/loginx"), LoginHref)
    ensures IsActive(Some("/login/reset"), LoginHref)
    ensures !IsActive(Some("/log"), LoginHref)
  {
    assert "/loginx"[..6] == LoginHref;
    assert "/login/reset"[..6] == LoginHref;
  }
}
