/**
 The addon descriptors the menu composer reads, and the registry query it
 starts from. An addon is seen only through what the composer asks of it:
 its name, its lifecycle state, its icon, the menu items it contributes and
 how many settings it declares.
 */
module Addons {
  import opened Selection

  datatype AddonState = Enabled | Disabled | Errored

  /** What an addon's icon provider hands back; its contents are not inspected. */
  datatype IconHandle = IconHandle(source: string)

  /** A menu item built by an addon itself; the composer moves it into the menu unchanged. */
  datatype MenuEntry = MenuEntry(id: nat, header: string)

  /**
   One addon: `icon` is what its icon provider returns, `menuItems` what its
   menu-item query returns, `settingsCount` the length of its settings list.
   */
  datatype Addon = Addon(
    name: string,
    state: AddonState,
    icon: IconHandle,
    menuItems: seq<MenuEntry>,
    settingsCount: nat)

  /** The registry's test for "this addon is in `state`". */
  function InState(state: AddonState): Addon -> bool {
    (a: Addon) => a.state == state
  }

  /**
   The registry's "all addons in this state" query over the registry's
   addons, in registration order.
   */
  function GetAddons(registry: seq<Addon>, state: AddonState): (r: seq<Addon>)
    ensures |r| <= |registry|
    ensures forall k :: 0 <= k < |r| ==> r[k].state == state
    ensures forall i :: 0 <= i < |registry| && registry[i].state == state ==> registry[i] in r
  {
    var r := Filter(registry, InState(state));
    forall i | 0 <= i < |registry| && registry[i].state == state
      ensures registry[i] in r
    {
      FilterComplete(registry, InState(state), i);
    }
    r
  }

  /**
   The query returns registry addons in registration order: the k-th addon
   returned is the registry's addon at the k-th position whose addon is in
   `state`, and those positions increase.
   */
  lemma {:induction false} GetAddonsInRegistryOrder(registry: seq<Addon>, state: AddonState)
    ensures |GetAddons(registry, state)| == |Positions(registry, InState(state))|
    ensures forall k :: 0 <= k < |GetAddons(registry, state)| ==>
              GetAddons(registry, state)[k] == registry[Positions(registry, InState(state))[k]]
  {
    forall k | 0 <= k < |GetAddons(registry, state)|
      ensures GetAddons(registry, state)[k] == registry[Positions(registry, InState(state))[k]]
    {
      PositionsSelect(registry, InState(state), k);
    }
  }
}
