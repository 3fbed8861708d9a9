/**
 * components/layout/BottomNav.tsx: which pages show the bottom navigation
 * bar, which tab it highlights and how large each icon is drawn.
 */
module Nav {
  import opened Text

  datatype Tab = Tab(name: string, href: string)

  /** The five tabs, left to right. */
  const Items: seq<Tab> := [Tab("Home", "/"), Tab("Market", "/market"), Tab("Earn", "/vaults"),
                            Tab("Portfolio", "/portfolio"), Tab("Points", "/points")]

  /** The literal part of the excluded pattern `^/vaults/[^/]+$`. */
  const DetailPrefix: string := "/vaults/"

  /** `[^/]*` matched to the end of the text. */
  predicate NoSlash(s: string)
    decreases |s|
  {
    s == [] || (s[0] != '/' && NoSlash(s[1..]))
  }

  lemma {:induction false} NoSlashIff(s: string)
    ensures NoSlash(s) <==> '/' !in s
    decreases |s|
  {
    if s != [] {
      NoSlashIff(s[1..]);
      assert s == [s[0]] + s[1..];
    }
  }

  /** `isHidden`: the path is `/vaults/` followed by one or more characters other than '/', and nothing else. */
  predicate IsHidden(pathname: string)
  {
    |pathname| > |DetailPrefix| && pathname[..|DetailPrefix|] == DetailPrefix && NoSlash(pathname[|DetailPrefix|..])
  }

  /** The bar is hidden exactly on the pages `/vaults/<segment>` with a non-empty segment. */
  lemma HiddenIff(pathname: string)
    ensures IsHidden(pathname) <==> exists seg :: seg != "" && '/' !in seg && pathname == DetailPrefix + seg
  {
    var n := |DetailPrefix|;
    if IsHidden(pathname) {
      var seg := pathname[n..];
      NoSlashIff(seg);
      assert pathname == DetailPrefix + seg;
    }
    if exists seg :: seg != "" && '/' !in seg && pathname == DetailPrefix + seg {
      var seg :| seg != "" && '/' !in seg && pathname == DetailPrefix + seg;
      NoSlashIff(seg);
      assert pathname[..n] == DetailPrefix && pathname[n..] == seg;
    }
  }

  /** The vault list and the deeper paths keep the bar; a vault page and the My Vaults page hide it. */
  lemma HiddenExamples()
    ensures !IsHidden("/vaults") && !IsHidden("/vaults/") && !IsHidden("/vaults/FBTC/x")
    ensures IsHidden("/vaults/FBTC") && IsHidden("/vaults/my")
  {
    HiddenIff("/vaults/FBTC");
    assert "/vaults/FBTC" == DetailPrefix + "FBTC";
    HiddenIff("/vaults/my");
    assert "/vaults/my" == DetailPrefix + "my";
    NoSlashIff("FBTC/x");
    assert "/vaults/FBTC/x"[|DetailPrefix|..] == "FBTC/x";
    assert "FBTC/x"[4] == '/';
  }

  /** `isActive(href)`: the Earn tab for every path under `/vaults`, any other tab on its own path only. */
  predicate IsActive(href: string, pathname: string)
  {
    (href == "/vaults" && StartsWith(pathname, "/vaults")) || pathname == href
  }

  /** `iconSize(name)`: the Earn icon is drawn larger. */
  function IconSize(name: string): nat
  {
    if name == "Earn" then 28 else 24
  }

  /** One drawn tab. */
  datatype TabView = TabView(tab: Tab, active: bool, iconSize: nat)

  /** What the bar draws: nothing on a hidden page, otherwise every tab in order. */
  function View(pathname: string): (v: seq<TabView>)
    ensures IsHidden(pathname) ==> v == []
    ensures !IsHidden(pathname) ==> |v| == |Items| && forall i :: 0 <= i < |v| ==> v[i].tab == Items[i]
  {
    if IsHidden(pathname) then
      []
    else
      seq(|Items|, i requires 0 <= i < |Items| => TabView(Items[i], IsActive(Items[i].href, pathname), IconSize(Items[i].name)))
  }

  /** Only the Earn tab can be active under `/vaults`, and at most one tab is active on any page. */
  lemma AtMostOneActive(pathname: string, i: nat, j: nat)
    requires i < |Items| && j < |Items|
    requires IsActive(Items[i].href, pathname) && IsActive(Items[j].href, pathname)
    ensures i == j
  {
    if Items[i].href != "/vaults" && Items[j].href != "/vaults" {
      assert Items[i].href == Items[j].href;
    } else if StartsWith(pathname, "/vaults") {
      assert pathname[..7] == "/vaults";
      assert |pathname| >= 7 && pathname[1] == 'v';
      assert forall k :: 0 <= k < |Items| && Items[k].href != "/vaults" ==> pathname != Items[k].href;
    }
  }

  /** Under `/vaults` the Earn tab is the active one; elsewhere a tab is active on its own path. */
  lemma ActiveTabs(pathname: string)
    requires !IsHidden(pathname)
    ensures View(pathname)[2].active <==> StartsWith(pathname, "/vaults")
    ensures forall i :: 0 <= i < |Items| && i != 2 ==> (View(pathname)[i].active <==> pathname == Items[i].href)
  {
  }

  /** On the vault list the bar shows Earn highlighted with the large icon. */
  lemma VaultListView()
    ensures View("/vaults") == [TabView(Items[0], false, 24), TabView(Items[1], false, 24), TabView(Items[2], true, 28),
                                TabView(Items[3], false, 24), TabView(Items[4], false, 24)]
  {
    assert !IsHidden("/vaults");
  }
}
