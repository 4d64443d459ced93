# SkEditor addon menu composer, modelled in Dafny

This project models how SkEditor's main menu control rebuilds its "Addons"
menu item (`MainMenuControl.ReloadAddonsMenus`). A rebuild clears the menu
item's children. It then walks the enabled addons of the addon registry in
order and skips every addon that contributes no menu items. Every other
addon gets one group headed by its name and icon. When the addon has
settings, the group starts with a "Settings" launcher and a separator. The
addon's own items follow in their original order. After the loop the
rebuild always appends a separator and a "Manage addons" entry. Last, the
menu item is made visible exactly when at least one group was added.

Layout:

- `selection.dfy` (module `Selection`): order-preserving selection
  (`Filter`) and the indices it selects from (`Positions`), with their
  lemmas.
- `addons.dfy` (module `Addons`): the addon descriptor and the registry's
  "addons in state X" query.
- `menu.dfy` (module `Menu`): the menu as a value. It holds the node tree,
  the two commands written as ordered step lists, the specification of a
  rebuild (`ComposedMenu`, built from `Groups` and `IconsFetched`) and the
  lemmas about it.
- `main_menu.dfy` (module `MainMenu`): the control as a class. Its fields
  `items` and `isVisible` are the "Addons" menu item's children and
  visibility, and a ghost log records every icon fetch. The rebuild is
  imperative: it clears `items`, appends to it in a loop, builds each
  group's children by appending in an inner loop, and finally assigns
  `isVisible`. Each method is proved against the `Menu` specification.

The calls the rebuild makes into code outside this file are inputs:

- The registry is a sequence of addons; `GetAddons` selects the addons in
  a given state, in registry order.
- `GetMenuItems`, `GetSettings` and `GetAddonIcon` are an addon's
  `menuItems`, `settingsCount` and `icon` fields.
- `Translation.Get` is a parameter `translate: string -> string`, applied
  to the two keys `"WindowTitleSettings"` and `"MenuHeaderManageAddons"`.
- A command is the sequence of steps it performs: show the settings
  window, navigate to a page, load an addon's settings.

## Model

| member | source | states |
|---|---|---|
| Addons.GetAddons | SkEditor/Controls/MainMenuControl.axaml.cs:75 | The registry's query returns only addons in the requested state, no more of them than the registry holds, and every registry addon in that state is among them. |
| Addons.GetAddonsInRegistryOrder | SkEditor/Controls/MainMenuControl.axaml.cs:75 | The query returns registry addons only, in registration order: it returns one addon per registry position whose addon is in the requested state, and the k-th addon returned is the one at the k-th such position. |
| Menu.OpenAddonSettings | SkEditor/Controls/MainMenuControl.axaml.cs:98-103 | The settings launcher's command shows the settings window at its first step and at no other. It ends by navigating to the custom addon settings page and, right after, loading this addon's settings. No earlier step loads any addon. |
| Menu.OpenAddonManager | SkEditor/Controls/MainMenuControl.axaml.cs:124-128 | The "Manage addons" command shows the settings window at its first step and at no other. It ends on the addons page, and no step loads an addon's settings. |
| Menu.Subs | SkEditor/Controls/MainMenuControl.axaml.cs:114-115 | The addon's items go into the group as they are: one node per item, the k-th node being the k-th item. |
| Menu.GroupOf | SkEditor/Controls/MainMenuControl.axaml.cs:82-91 | An addon's group is a group node headed by the addon's name and carrying the addon's icon. |
| Menu.GroupLayout | SkEditor/Controls/MainMenuControl.axaml.cs:93-115 | A group has `|items| + 2` children when the addon has settings and `|items|` otherwise. With settings, child 0 is the settings launcher and child 1 a separator. The addon's items fill the tail in their order. Every settings launcher in the group runs this addon's settings command. |
| Menu.GroupKeepsEntries | SkEditor/Controls/MainMenuControl.axaml.cs:114-115 | Reading back the addon items of a group gives exactly the addon's items, in order. |
| Menu.GroupsStep | SkEditor/Controls/MainMenuControl.axaml.cs:76-117 | One more addon scanned by the loop appends that addon's group when it has items, and nothing otherwise. |
| Menu.IconsFetchedStep | SkEditor/Controls/MainMenuControl.axaml.cs:77-87 | One more addon scanned fetches that addon's icon when it has items, and no icon otherwise. |
| Menu.IconsFetchedAreAddonsWithItems | SkEditor/Controls/MainMenuControl.axaml.cs:75-87 | The loop fetches the icons of exactly the addons with items, in the order they are walked. |
| Menu.GroupsOfAddonsWithItems | SkEditor/Controls/MainMenuControl.axaml.cs:75-117 | The loop yields one group per addon with items: as many groups as such addons, and the k-th group is the k-th such addon's. |
| Menu.ComposedMenuLayout | SkEditor/Controls/MainMenuControl.axaml.cs:74-139 | After a rebuild the menu is one group per enabled addon with items, in registry order, then a separator, then the "Manage addons" entry, whatever the registry holds. So the menu has two more nodes than groups. |
| Menu.GroupsFollowRegistry | SkEditor/Controls/MainMenuControl.axaml.cs:75-117 | There are as many groups as contributing positions, and the k-th group is built from the registry addon at the k-th one. An index is a contributing position exactly when its addon is enabled and has items. The positions increase, which `Selection.Positions` itself promises. |
| Menu.GroupsOnlyForContributors | SkEditor/Controls/MainMenuControl.axaml.cs:75-81 | Every group of the rebuilt menu is the group of some registry addon that is enabled and has items. |
| Menu.ContributorsGetGroups | SkEditor/Controls/MainMenuControl.axaml.cs:75-117 | Every registry addon that is enabled and has items has its group in the rebuilt menu. |
| Menu.SkippedAddonGetsNoGroup | SkEditor/Controls/MainMenuControl.axaml.cs:77-87 | An addon with no items is not among the addons whose icon is fetched, and no node of the rebuilt menu is its group. |
| Menu.SkippedAddonIsNeverLoaded | SkEditor/Controls/MainMenuControl.axaml.cs:77-103 | No settings launcher anywhere in the rebuilt menu loads the settings of an addon with no items. |
| Menu.AnyContributor | SkEditor/Controls/MainMenuControl.axaml.cs:73-81 | Some registry addon is enabled and has items exactly when the selection of such addons is non-empty. |
| Menu.VisibleIffContributor | SkEditor/Controls/MainMenuControl.axaml.cs:120-141 | The rebuilt menu holds a group exactly when some registry addon is enabled and has items. The trailing separator and "Manage addons" entry never count as groups. |
| Menu.RebuildOutcome | SkEditor/Controls/MainMenuControl.axaml.cs:73-117 | The loop over the enabled addons appends a group exactly when some registry addon contributes. The icons it fetches are exactly the contributing registry addons, in registry order. |
| Menu.NoContributorMenu | SkEditor/Controls/MainMenuControl.axaml.cs:120-139 | With no enabled addon that has items, the rebuilt menu is exactly a separator followed by the "Manage addons" entry. |
| Menu.MixedRegistryMenu | SkEditor/Controls/MainMenuControl.axaml.cs:71-142 | Registry [A enabled with 2 items and no settings, B disabled with 3 items, C enabled with no items]: the menu is A's group holding exactly A's two items, then the separator and "Manage addons", and some addon contributes. |
| Menu.EmptyRegistryMenu | SkEditor/Controls/MainMenuControl.axaml.cs:120-141 | An empty registry gives exactly the separator and "Manage addons", and no addon contributes. |
| MainMenu.MainMenuControl.ReloadAddonsMenus | SkEditor/Controls/MainMenuControl.axaml.cs:71-142 | After the rebuild, the menu's children are `ComposedMenu` of the registry, whatever they were before. The menu is visible exactly when some registry addon is enabled and has items. The icon log grew by exactly the contributing addons, in registry order. |
| MainMenu.MainMenuControl.AppendAddonGroups | SkEditor/Controls/MainMenuControl.axaml.cs:73-118 | The loop appends `Groups` of the walked addons to the children. The flag is set exactly when a group was appended. The icon log grows by `IconsFetched` of the walked addons. Visibility is untouched. |
| MainMenu.MainMenuControl.AddAddonGroup | SkEditor/Controls/MainMenuControl.axaml.cs:76-117 | An addon without items changes nothing and fetches no icon. Otherwise its icon is fetched once and its group is appended at the end. |
| MainMenu.MainMenuControl.AppendManageFooter | SkEditor/Controls/MainMenuControl.axaml.cs:120-139 | Appends a separator and then the "Manage addons" entry, labelled by translating "MenuHeaderManageAddons" and running the manager command. |
| MainMenu.BuildGroupChildren | SkEditor/Controls/MainMenuControl.axaml.cs:93-115 | The children built by appending are exactly the specified children of the addon's group. |
| MainMenu.RebuildTwice | SkEditor/Controls/MainMenuControl.axaml.cs:71-74 | Two rebuilds in a row over an unchanged registry leave the same children and the same visibility. |

## Left out

- `AssignCommands` (SkEditor/Controls/MainMenuControl.axaml.cs:27-64) binds fixed menu items to handlers in other files. It holds no logic of its own.
- `AddDocsTab` (SkEditor/Controls/MainMenuControl.axaml.cs:66-69) is a single call that opens a documentation tab.
- The control's constructor only calls `InitializeComponent` and `AssignCommands`. `MainMenu.MainMenuControl.constructor` just gives the menu item an empty list of children and makes it visible. The markup that sets its real initial state is not part of this model.
- Presentation is not modelled: icon sizes, `SymbolIconSource`, font sizes and `IconSourceElement` construction. An icon is the handle the addon's icon provider returns.
- The addon registry's own behaviour is not part of this model. The registry is a sequence, and its query is an order-preserving selection by state.
- The translation lookup is not part of this model. It is a function parameter, so missing keys and fallbacks are not described.
- What showing the settings window, navigating and loading settings do is not modelled. The dialog the commands open is not awaited in the source. A command is only the ordered list of its steps.
- Menu nodes are values, so object identity is not modelled. This covers Avalonia re-parenting an addon's own menu items into the group and the release of the old nodes on clear. "No old child remains" is stated as "the new children depend only on the registry".
- `MainMenu.MainMenuControl.AppendAddonGroups` and `MainMenu.MainMenuControl.AppendManageFooter` are the loop and the closing appends of `ReloadAddonsMenus`, split into their own methods. The order of the in-place updates is the source's.
- Only an addon's icon fetches are logged. Calls to `GetMenuItems` and `GetSettings` are not logged, because the source calls them for every addon it walks and for every addon with items respectively.
- Errors raised by addon code during a rebuild are not modelled. Neither is a call made before the registry exists.
