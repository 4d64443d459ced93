/**
 The main menu control and the in-place rebuild of its "Addons" menu item.
 The menu item's children and its visibility are fields the rebuild
 reassigns; the addon registry and the translation lookup are given to it,
 and every icon the rebuild fetches is recorded in a ghost log.
 */
module MainMenu {
  import opened Selection
  import opened Addons
  import opened Menu

  class MainMenuControl {
    /** The children of the "Addons" menu item, top level only. */
    var items: seq<Node>
    /** Whether the "Addons" menu item is shown. */
    var isVisible: bool
    /** The addons whose icon has been fetched, in the order of the fetches. */
    ghost var iconFetches: seq<Addon>

    constructor ()
      ensures items == [] && isVisible && iconFetches == []
    {
      items := [];
      isVisible := true;
      iconFetches := [];
    }

    /**
     Rebuilds the "Addons" menu from scratch out of the registry's enabled
     addons. The new children do not depend on the old ones; the menu is
     shown exactly when some enabled addon has items; icons are fetched for
     exactly those addons, in registry order.
     */
    method ReloadAddonsMenus(registry: seq<Addon>, translate: string -> string)
      modifies this
      ensures items == ComposedMenu(registry, translate)
      ensures isVisible <==> AnyContributes(registry)
      ensures iconFetches == old(iconFetches) + Filter(registry, Contributes)
    {
      // what the loop's outcome over the enabled addons means for the registry
      RebuildOutcome(registry, translate);

      items := [];
      var addons := GetAddons(registry, Enabled);
      var hasAnyMenu := AppendAddonGroups(addons, translate);
      AppendManageFooter(translate);
      isVisible := hasAnyMenu;
    }

    /** Closes the menu with a separator and the "Manage addons" entry. */
    method AppendManageFooter(translate: string -> string)
      modifies this
      ensures items == old(items) + [Separator, ManageEntry(translate(MANAGE_ADDONS_KEY), OpenAddonManager())]
      ensures isVisible == old(isVisible) && iconFetches == old(iconFetches)
    {
      items := items + [Separator];
      items := items + [ManageEntry(translate(MANAGE_ADDONS_KEY), OpenAddonManager())];
    }

    /**
     The rebuild loop: walks `addons` in order and appends one group for
     every addon with items; the answer tells whether any group was appended.
     */
    method AppendAddonGroups(addons: seq<Addon>, translate: string -> string) returns (hasAnyMenu: bool)
      modifies this
      ensures items == old(items) + Groups(addons, translate)
      ensures hasAnyMenu <==> |Groups(addons, translate)| > 0
      ensures iconFetches == old(iconFetches) + IconsFetched(addons)
      ensures isVisible == old(isVisible)
    {
      hasAnyMenu := false;
      var i := 0;
      while i < |addons|
        invariant 0 <= i <= |addons|
        invariant items == old(items) + Groups(addons[..i], translate)
        invariant hasAnyMenu <==> |Groups(addons[..i], translate)| > 0
        invariant iconFetches == old(iconFetches) + IconsFetched(addons[..i])
        invariant isVisible == old(isVisible)
      {
        GroupsStep(addons, translate, i);
        IconsFetchedStep(addons, i);
        var added := AddAddonGroup(addons[i], translate);
        hasAnyMenu := hasAnyMenu || added;
        i := i + 1;
      }
      assert addons[..i] == addons;
    }

    /**
     One turn of the rebuild loop: an addon without items is skipped before
     anything is asked of its icon; otherwise its icon is fetched, its group
     is built and appended at the end of the menu.
     */
    method AddAddonGroup(addon: Addon, translate: string -> string) returns (added: bool)
      modifies this
      ensures added == HasMenuItems(addon)
      ensures items == old(items) + (if added then [GroupOf(addon, translate)] else [])
      ensures iconFetches == old(iconFetches) + (if added then [addon] else [])
      ensures isVisible == old(isVisible)
    {
      var entries := addon.menuItems;
      if |entries| <= 0 {
        return false;
      }

      iconFetches := iconFetches + [addon];
      var icon := addon.icon;
      var children := BuildGroupChildren(addon, translate);
      items := items + [Group(addon.name, icon, children)];
      return true;
    }
  }

  /**
   The children of one addon's group, built by appending: with settings, the
   launcher and a separator first; then the addon's items one by one.
   */
  method BuildGroupChildren(addon: Addon, translate: string -> string) returns (children: seq<Node>)
    ensures children == GroupOf(addon, translate).children
  {
    var entries := addon.menuItems;
    children := [];
    if addon.settingsCount > 0 {
      children := children + [SettingsEntry(translate(SETTINGS_TITLE_KEY), OpenAddonSettings(addon))];
      children := children + [Separator];
    }

    var j := 0;
    while j < |entries|
      invariant 0 <= j <= |entries|
      invariant children == SettingsHead(addon, translate) + Subs(entries[..j])
    {
      assert entries[..j + 1][..j] == entries[..j];
      children := children + [Sub(entries[j])];
      j := j + 1;
    }
    assert entries[..j] == entries;
  }

  /**
   Rebuilding twice over an unchanged registry gives the same children and
   the same visibility as rebuilding once.
   */
  method RebuildTwice(control: MainMenuControl, registry: seq<Addon>, translate: string -> string)
    returns (first: seq<Node>, second: seq<Node>, firstShown: bool, secondShown: bool)
    modifies control
    ensures first == second == control.items
    ensures firstShown == secondShown == control.isVisible
  {
    control.ReloadAddonsMenus(registry, translate);
    first, firstShown := control.items, control.isVisible;
    control.ReloadAddonsMenus(registry, translate);
    second, secondShown := control.items, control.isVisible;
  }
}
