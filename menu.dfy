/**
 The "Addons" menu as a value: the tree `ReloadAddonsMenus` builds, the
 command each generated entry runs (as the ordered steps it performs on the
 settings window), and the specification of the whole rebuild together with
 the properties the rebuild promises.
 */
module Menu {
  import opened Selection
  import opened Addons

  /** Translation key of the label of every group's settings launcher. */
  const SETTINGS_TITLE_KEY := "WindowTitleSettings"
  /** Translation key of the label of the trailing "Manage addons" entry. */
  const MANAGE_ADDONS_KEY := "MenuHeaderManageAddons"

  /** Settings-window pages the generated commands navigate to. */
  datatype Page = CustomAddonSettingsPage | AddonsPage

  /** One action of a generated command, in the order the command performs them. */
  datatype Step =
    | ShowSettingsWindow
    | NavigateToPage(page: Page)
    | LoadAddonSettings(addon: Addon)

  /**
   A node of the menu: an addon's group (header, icon, children), the settings
   launcher inside a group, a separator, one of the addon's own items, and the
   trailing "Manage addons" entry.
   */
  datatype Node =
    | Group(header: string, icon: IconHandle, children: seq<Node>)
    | SettingsEntry(header: string, command: seq<Step>)
    | Separator
    | Sub(entry: MenuEntry)
    | ManageEntry(header: string, command: seq<Step>)

  /**
   The settings launcher's command: it opens the settings window first and
   only then; it ends by navigating to the addon-settings page and, right
   after, loading this addon; no step before that last one loads an addon.
   */
  function OpenAddonSettings(addon: Addon): (steps: seq<Step>)
    ensures |steps| >= 2 && steps[0] == ShowSettingsWindow
    ensures forall k :: 0 < k < |steps| ==> steps[k] != ShowSettingsWindow
    ensures steps[|steps| - 2] == NavigateToPage(CustomAddonSettingsPage)
            && steps[|steps| - 1] == LoadAddonSettings(addon)
    ensures forall k :: 0 <= k < |steps| - 1 ==> !steps[k].LoadAddonSettings?
  {
    [ShowSettingsWindow, NavigateToPage(CustomAddonSettingsPage), LoadAddonSettings(addon)]
  }

  /**
   The "Manage addons" command: it opens the settings window first and only
   then, ends on the addons page, and loads no addon.
   */
  function OpenAddonManager(): (steps: seq<Step>)
    ensures |steps| >= 2 && steps[0] == ShowSettingsWindow
    ensures forall k :: 0 < k < |steps| ==> steps[k] != ShowSettingsWindow
    ensures steps[|steps| - 1] == NavigateToPage(AddonsPage)
    ensures forall k :: 0 <= k < |steps| ==> !steps[k].LoadAddonSettings?
  {
    [ShowSettingsWindow, NavigateToPage(AddonsPage)]
  }

  /** The loop's test: an addon whose item list is empty is skipped. */
  predicate HasMenuItems(addon: Addon) {
    !(|addon.menuItems| <= 0)
  }

  /** An addon of the registry that gets a group: enabled, and with items. */
  predicate Contributes(addon: Addon) {
    addon.state == Enabled && HasMenuItems(addon)
  }

  /** Some addon of the registry gets a group. */
  predicate AnyContributes(registry: seq<Addon>) {
    exists i :: 0 <= i < |registry| && Contributes(registry[i])
  }

  /** The addon's own items, each moved into the menu as it is. */
  function Subs(entries: seq<MenuEntry>): (r: seq<Node>)
    ensures |r| == |entries|
    ensures forall k :: 0 <= k < |r| ==> r[k] == Sub(entries[k])
    decreases |entries|
  {
    if entries == [] then []
    else Subs(entries[..|entries| - 1]) + [Sub(entries[|entries| - 1])]
  }

  /** The children that come before the addon's items: the settings launcher and a separator, when it has settings. */
  function SettingsHead(addon: Addon, translate: string -> string): seq<Node> {
    if addon.settingsCount > 0 then
      [SettingsEntry(translate(SETTINGS_TITLE_KEY), OpenAddonSettings(addon)), Separator]
    else []
  }

  /** The group built for one addon; `GroupLayout` states what it holds. */
  function GroupOf(addon: Addon, translate: string -> string): (g: Node)
    ensures g.Group? && g.header == addon.name && g.icon == addon.icon
  {
    Group(addon.name, addon.icon, SettingsHead(addon, translate) + Subs(addon.menuItems))
  }

  /**
   Layout of one addon's group: with settings, the launcher and a separator
   come first; then every item of the addon, in its order; the only settings
   launcher in it is this addon's.
   */
  lemma {:induction false} GroupLayout(addon: Addon, translate: string -> string)
    ensures |GroupOf(addon, translate).children|
            == |addon.menuItems| + (if addon.settingsCount > 0 then 2 else 0)
    ensures addon.settingsCount > 0 ==>
              GroupOf(addon, translate).children[0]
                == SettingsEntry(translate(SETTINGS_TITLE_KEY), OpenAddonSettings(addon))
              && GroupOf(addon, translate).children[1] == Separator
    ensures forall k :: 0 <= k < |addon.menuItems| ==>
              GroupOf(addon, translate).children[|GroupOf(addon, translate).children| - |addon.menuItems| + k]
                == Sub(addon.menuItems[k])
    ensures forall j :: 0 <= j < |GroupOf(addon, translate).children|
                        && GroupOf(addon, translate).children[j].SettingsEntry? ==>
              GroupOf(addon, translate).children[j].command == OpenAddonSettings(addon)
  {
    var head := SettingsHead(addon, translate);
    var items := Subs(addon.menuItems);
    var children := head + items;
    assert GroupOf(addon, translate).children == children;
    assert forall k :: 0 <= k < |items| ==> children[|head| + k] == items[k];
    assert forall j :: |head| <= j < |children| ==> children[j] == items[j - |head|];
  }

  /** The groups appended by the loop over `addons`, one step per addon. */
  function Groups(addons: seq<Addon>, translate: string -> string): seq<Node>
    decreases |addons|
  {
    if addons == [] then []
    else
      var done := Groups(addons[..|addons| - 1], translate);
      var addon := addons[|addons| - 1];
      if !HasMenuItems(addon) then done else done + [GroupOf(addon, translate)]
  }

  /** One more addon scanned: a group is appended for it exactly when it has items. */
  lemma GroupsStep(addons: seq<Addon>, translate: string -> string, i: nat)
    requires i < |addons|
    ensures Groups(addons[..i + 1], translate)
            == Groups(addons[..i], translate)
               + (if HasMenuItems(addons[i]) then [GroupOf(addons[i], translate)] else [])
  {
    assert addons[..i + 1][..i] == addons[..i];
  }

  /**
   The addons whose icon the loop over `addons` fetches, in the order of the
   fetches: one per addon with items, asked only after its items were found
   non-empty. This is the selection of the addons with items, written out
   without a function-valued argument so that the rebuild loop, which
   changes the heap at every turn, can carry it in its invariant cheaply;
   `IconsFetchedAreAddonsWithItems` proves the two equal.
   */
  function IconsFetched(addons: seq<Addon>): seq<Addon>
    decreases |addons|
  {
    if addons == [] then []
    else
      var done := IconsFetched(addons[..|addons| - 1]);
      var addon := addons[|addons| - 1];
      if !HasMenuItems(addon) then done else done + [addon]
  }

  /** One more addon scanned: its icon is fetched exactly when it has items. */
  lemma IconsFetchedStep(addons: seq<Addon>, i: nat)
    requires i < |addons|
    ensures IconsFetched(addons[..i + 1])
            == IconsFetched(addons[..i]) + (if HasMenuItems(addons[i]) then [addons[i]] else [])
  {
    assert addons[..i + 1][..i] == addons[..i];
  }

  /** The icons fetched are those of the addons with items, selected in order. */
  lemma {:induction false} IconsFetchedAreAddonsWithItems(addons: seq<Addon>)
    ensures IconsFetched(addons) == Filter(addons, HasMenuItems)
    decreases |addons|
  {
    if addons != [] {
      IconsFetchedAreAddonsWithItems(addons[..|addons| - 1]);
    }
  }

  /** The rebuilt menu: the groups, then a separator and the "Manage addons" entry. */
  function ComposedMenu(registry: seq<Addon>, translate: string -> string): seq<Node> {
    Groups(GetAddons(registry, Enabled), translate)
      + [Separator, ManageEntry(translate(MANAGE_ADDONS_KEY), OpenAddonManager())]
  }

  /** The items of the addon's own that a list of nodes holds, in order. */
  function AddonEntries(nodes: seq<Node>): seq<MenuEntry>
    decreases |nodes|
  {
    if nodes == [] then []
    else
      var last := nodes[|nodes| - 1];
      AddonEntries(nodes[..|nodes| - 1]) + (if last.Sub? then [last.entry] else [])
  }

  /** The loop yields exactly one group per addon with items, in the addons' order. */
  lemma {:induction false} GroupsOfAddonsWithItems(addons: seq<Addon>, translate: string -> string)
    ensures |Groups(addons, translate)| == |Filter(addons, HasMenuItems)|
    ensures forall k :: 0 <= k < |Groups(addons, translate)| ==>
              Groups(addons, translate)[k] == GroupOf(Filter(addons, HasMenuItems)[k], translate)
    decreases |addons|
  {
    if addons != [] {
      GroupsOfAddonsWithItems(addons[..|addons| - 1], translate);
    }
  }

  /**
   Layout of the rebuilt menu: one group per contributing addon of the
   registry (enabled, with items), in registry order, then a separator and
   the "Manage addons" entry, whatever the registry holds.
   */
  lemma ComposedMenuLayout(registry: seq<Addon>, translate: string -> string)
    ensures var root := ComposedMenu(registry, translate);
            var owners := Filter(registry, Contributes);
            && |root| == |owners| + 2
            && (forall k :: 0 <= k < |owners| ==> root[k] == GroupOf(owners[k], translate))
            && root[|owners|] == Separator
            && root[|owners| + 1] == ManageEntry(translate(MANAGE_ADDONS_KEY), OpenAddonManager())
  {
    var enabled := GetAddons(registry, Enabled);
    GroupsOfAddonsWithItems(enabled, translate);
    FilterFilter(registry, InState(Enabled), HasMenuItems, Contributes);
  }

  /**
   The k-th group of the rebuilt menu is built from the addon at the k-th
   contributing position of the registry; with `Positions` (increasing, and
   listing an index exactly when its addon contributes) this says that
   groups appear for enabled addons with items only, one each, in order.
   */
  lemma GroupsFollowRegistry(registry: seq<Addon>, translate: string -> string)
    ensures var root := ComposedMenu(registry, translate);
            var p := Positions(registry, Contributes);
            && |root| == |p| + 2
            && (forall k :: 0 <= k < |p| ==> root[k] == GroupOf(registry[p[k]], translate))
            && (forall i :: 0 <= i < |registry| ==> (i in p <==> Contributes(registry[i])))
  {
    ComposedMenuLayout(registry, translate);
    forall i | 0 <= i < |registry|
      ensures i in Positions(registry, Contributes) <==> Contributes(registry[i])
    {
      PositionsExact(registry, Contributes, i);
    }
    forall k | 0 <= k < |Positions(registry, Contributes)|
      ensures ComposedMenu(registry, translate)[k]
              == GroupOf(registry[Positions(registry, Contributes)[k]], translate)
    {
      PositionsSelect(registry, Contributes, k);
    }
  }

  /**
   An addon of the registry with no items is skipped: it is not among the
   addons whose icon is fetched, and no group of the rebuilt menu is its group.
   */
  lemma SkippedAddonGetsNoGroup(registry: seq<Addon>, translate: string -> string, addon: Addon)
    requires addon in registry && |addon.menuItems| == 0
    ensures addon !in Filter(registry, Contributes)
    ensures forall k :: 0 <= k < |ComposedMenu(registry, translate)| ==>
              ComposedMenu(registry, translate)[k] != GroupOf(addon, translate)
  {
    var root := ComposedMenu(registry, translate);
    var owners := Filter(registry, Contributes);
    ComposedMenuLayout(registry, translate);
    GroupKeepsEntries(addon, translate);
    forall k | 0 <= k < |owners|
      ensures root[k] != GroupOf(addon, translate)
    {
      var owner := owners[k];
      assert HasMenuItems(owner);
      GroupKeepsEntries(owner, translate);
    }
  }

  /** No settings launcher anywhere in the rebuilt menu loads an addon that has no items. */
  lemma SkippedAddonIsNeverLoaded(registry: seq<Addon>, translate: string -> string, addon: Addon)
    requires addon in registry && |addon.menuItems| == 0
    ensures forall k, j ::
              0 <= k < |ComposedMenu(registry, translate)|
              && ComposedMenu(registry, translate)[k].Group?
              && 0 <= j < |ComposedMenu(registry, translate)[k].children|
              && ComposedMenu(registry, translate)[k].children[j].SettingsEntry? ==>
                LoadAddonSettings(addon) !in ComposedMenu(registry, translate)[k].children[j].command
  {
    var root := ComposedMenu(registry, translate);
    var owners := Filter(registry, Contributes);
    ComposedMenuLayout(registry, translate);
    forall k | 0 <= k < |owners|
      ensures forall j :: 0 <= j < |root[k].children| && root[k].children[j].SettingsEntry? ==>
                LoadAddonSettings(addon) !in root[k].children[j].command
    {
      var owner := owners[k];
      assert HasMenuItems(owner);
      GroupLayout(owner, translate);
      assert owner != addon;
    }
  }

  /**
   Groups come from contributing addons only: each group of the rebuilt menu
   is the group of an enabled addon of the registry that has items.
   */
  lemma GroupsOnlyForContributors(registry: seq<Addon>, translate: string -> string)
    ensures forall k :: 0 <= k < |ComposedMenu(registry, translate)| - 2 ==>
              exists i :: 0 <= i < |registry| && Contributes(registry[i])
                          && ComposedMenu(registry, translate)[k] == GroupOf(registry[i], translate)
  {
    var root := ComposedMenu(registry, translate);
    GroupsFollowRegistry(registry, translate);
    forall k | 0 <= k < |root| - 2
      ensures exists i :: 0 <= i < |registry| && Contributes(registry[i]) && root[k] == GroupOf(registry[i], translate)
    {
      var p := Positions(registry, Contributes);
      PositionsExact(registry, Contributes, p[k]);
    }
  }

  /** Every enabled addon of the registry that has items has its group in the rebuilt menu. */
  lemma ContributorsGetGroups(registry: seq<Addon>, translate: string -> string)
    ensures forall i :: 0 <= i < |registry| && Contributes(registry[i]) ==>
              GroupOf(registry[i], translate) in ComposedMenu(registry, translate)
  {
    var root := ComposedMenu(registry, translate);
    var owners := Filter(registry, Contributes);
    ComposedMenuLayout(registry, translate);
    forall i | 0 <= i < |registry| && Contributes(registry[i])
      ensures GroupOf(registry[i], translate) in root
    {
      FilterComplete(registry, Contributes, i);
      var k :| 0 <= k < |owners| && owners[k] == registry[i];
      assert root[k] == GroupOf(registry[i], translate);
    }
  }

  /** Some addon of the registry contributes exactly when the contributing selection is not empty. */
  lemma {:induction false} AnyContributor(registry: seq<Addon>)
    ensures AnyContributes(registry) <==> |Filter(registry, Contributes)| > 0
  {
    var owners := Filter(registry, Contributes);
    if AnyContributes(registry) {
      var i :| 0 <= i < |registry| && Contributes(registry[i]);
      FilterComplete(registry, Contributes, i);
    }
    if |owners| > 0 {
      PositionsSelect(registry, Contributes, 0);
    }
  }

  /**
   The menu is shown exactly when some addon of the registry is enabled and
   has items; the trailing separator and "Manage addons" entry never count.
   */
  lemma VisibleIffContributor(registry: seq<Addon>, translate: string -> string)
    ensures (exists k :: 0 <= k < |ComposedMenu(registry, translate)| && ComposedMenu(registry, translate)[k].Group?)
            <==> AnyContributes(registry)
  {
    var root := ComposedMenu(registry, translate);
    var owners := Filter(registry, Contributes);
    ComposedMenuLayout(registry, translate);
    AnyContributor(registry);
    if |owners| > 0 {
      assert root[0].Group?;
    }
    if exists k :: 0 <= k < |root| && root[k].Group? {
      var k :| 0 <= k < |root| && root[k].Group?;
      assert k < |owners|;
    }
  }

  /**
   What the rebuild loop's result means for the registry: it appended a group
   exactly when some addon of the registry contributes, and the addons it
   kept are exactly the registry's contributing addons, in order.
   */
  lemma {:induction false} RebuildOutcome(registry: seq<Addon>, translate: string -> string)
    ensures |Groups(GetAddons(registry, Enabled), translate)| > 0
            <==> AnyContributes(registry)
    ensures IconsFetched(GetAddons(registry, Enabled)) == Filter(registry, Contributes)
  {
    IconsFetchedAreAddonsWithItems(GetAddons(registry, Enabled));
    GroupsOfAddonsWithItems(GetAddons(registry, Enabled), translate);
    FilterFilter(registry, InState(Enabled), HasMenuItems, Contributes);
    AnyContributor(registry);
  }

  /** With no enabled addon that has items, the menu is just the separator and "Manage addons". */
  lemma NoContributorMenu(registry: seq<Addon>, translate: string -> string)
    requires forall k :: 0 <= k < |registry| ==> !Contributes(registry[k])
    ensures ComposedMenu(registry, translate)
            == [Separator, ManageEntry(translate(MANAGE_ADDONS_KEY), OpenAddonManager())]
  {
    ComposedMenuLayout(registry, translate);
    AnyContributor(registry);
  }

  /** A group gives back, as its addon items, exactly the addon's items in their order. */
  lemma GroupKeepsEntries(addon: Addon, translate: string -> string)
    ensures AddonEntries(GroupOf(addon, translate).children) == addon.menuItems
  {
    EntriesAfterHead(SettingsHead(addon, translate), addon.menuItems);
  }

  lemma {:induction false} EntriesAfterHead(head: seq<Node>, entries: seq<MenuEntry>)
    requires forall j :: 0 <= j < |head| ==> !head[j].Sub?
    ensures AddonEntries(head + Subs(entries)) == entries
    decreases |entries|
  {
    if entries == [] {
      assert head + Subs(entries) == head;
      NoEntries(head);
    } else {
      var n := |entries| - 1;
      EntriesAfterHead(head, entries[..n]);
      assert (head + Subs(entries))[..|head| + n] == head + Subs(entries[..n]);
    }
  }

  lemma {:induction false} NoEntries(nodes: seq<Node>)
    requires forall j :: 0 <= j < |nodes| ==> !nodes[j].Sub?
    ensures AddonEntries(nodes) == []
    decreases |nodes|
  {
    if nodes != [] {
      NoEntries(nodes[..|nodes| - 1]);
    }
  }

  /**
   A registry of an enabled addon with two items and no settings, a disabled
   addon with three items and an enabled addon with no items: the menu holds
   one group, the first addon's, made of its two items alone, and is shown.
   */
  lemma MixedRegistryMenu(translate: string -> string)
    ensures var a := Addon("A", Enabled, IconHandle("a"), [MenuEntry(1, "a1"), MenuEntry(2, "a2")], 0);
            var b := Addon("B", Disabled, IconHandle("b"), [MenuEntry(3, "b1"), MenuEntry(4, "b2"), MenuEntry(5, "b3")], 0);
            var c := Addon("C", Enabled, IconHandle("c"), [], 0);
            && ComposedMenu([a, b, c], translate)
                 == [Group("A", IconHandle("a"), [Sub(MenuEntry(1, "a1")), Sub(MenuEntry(2, "a2"))]),
                     Separator,
                     ManageEntry(translate(MANAGE_ADDONS_KEY), OpenAddonManager())]
            && AnyContributes([a, b, c])
  {
    var a := Addon("A", Enabled, IconHandle("a"), [MenuEntry(1, "a1"), MenuEntry(2, "a2")], 0);
    var b := Addon("B", Disabled, IconHandle("b"), [MenuEntry(3, "b1"), MenuEntry(4, "b2"), MenuEntry(5, "b3")], 0);
    var c := Addon("C", Enabled, IconHandle("c"), [], 0);
    var registry := [a, b, c];
    assert registry[..2] == [a, b] && [a, b][..1] == [a] && [a][..0] == [];
    assert Contributes(a) && !Contributes(b) && !Contributes(c);
    assert Filter([a], Contributes) == [a];
    assert Filter([a, b], Contributes) == [a];
    assert Filter(registry, Contributes) == [a];
    ComposedMenuLayout(registry, translate);
    assert Subs(a.menuItems) == [Sub(MenuEntry(1, "a1")), Sub(MenuEntry(2, "a2"))];
    assert GroupOf(a, translate) == Group("A", IconHandle("a"), [Sub(MenuEntry(1, "a1")), Sub(MenuEntry(2, "a2"))]);
    assert Contributes(registry[0]);
  }

  /** An empty registry gives the separator and "Manage addons" alone, and a hidden menu. */
  lemma EmptyRegistryMenu(translate: string -> string)
    ensures ComposedMenu([], translate) == [Separator, ManageEntry(translate(MANAGE_ADDONS_KEY), OpenAddonManager())]
    ensures !AnyContributes([])
  {
  }
}
