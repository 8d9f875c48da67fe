/**
 * The two visibility settings of src/js/settings-model.js.  Each update is
 * written to the key-value store, kept here as the ghost map `stored` from
 * key to the boolean last written under it.
 */
module SettingsModel {
  import opened Wrappers

  const ShowCompletedKey: string := "show_completed"
  const ShowDeletedKey: string := "show_deleted"

  /**
   * The initial value of a setting, `JSON.parse(item) || false`: a stored
   * `true` gives true; a stored `false` and an absent item give false.
   */
  function Initial(item: Option<bool>): (b: bool)
    ensures b <==> item == Some(true)
    ensures item.None? ==> !b
  {
    match item
    case None => false
    case Some(v) => v || false
  }

  class Settings {
    var showingCompleted: bool
    var showingDeleted: bool
    /** The entries of the key-value store this module writes. */
    ghost var stored: map<string, bool>

    /** Every entry present in the store holds the current value of its setting. */
    ghost predicate Valid()
      reads this
    {
      && (ShowCompletedKey in stored ==> stored[ShowCompletedKey] == showingCompleted)
      && (ShowDeletedKey in stored ==> stored[ShowDeletedKey] == showingDeleted)
    }

    /** Module initialisation from the two stored items (None: absent). */
    constructor (completedItem: Option<bool>, deletedItem: Option<bool>)
      ensures Valid()
      ensures showingCompleted == Initial(completedItem)
      ensures showingDeleted == Initial(deletedItem)
      ensures (ShowCompletedKey in stored <==> completedItem.Some?)
           && (ShowDeletedKey in stored <==> deletedItem.Some?)
      ensures stored.Keys <= {ShowCompletedKey, ShowDeletedKey}
    {
      showingCompleted := Initial(completedItem);
      showingDeleted := Initial(deletedItem);
      var m: map<string, bool> := map[];
      if completedItem.Some? {
        m := m[ShowCompletedKey := completedItem.value];
      }
      if deletedItem.Some? {
        m := m[ShowDeletedKey := deletedItem.value];
      }
      stored := m;
    }

    /** `setShowingCompleted`. */
    method SetShowingCompleted(value: bool)
      requires Valid()
      modifies this
      ensures Valid()
      ensures showingCompleted == value && showingDeleted == old(showingDeleted)
      ensures stored == old(stored)[ShowCompletedKey := value]
    {
      showingCompleted := value;
      stored := stored[ShowCompletedKey := showingCompleted];
    }

    /** `setShowingDeleted`. */
    method SetShowingDeleted(value: bool)
      requires Valid()
      modifies this
      ensures Valid()
      ensures showingDeleted == value && showingCompleted == old(showingCompleted)
      ensures stored == old(stored)[ShowDeletedKey := value]
    {
      showingDeleted := value;
      stored := stored[ShowDeletedKey := showingDeleted];
    }

    /** `toggleShowCompleted`: negate the flag and persist the new value. */
    method ToggleShowCompleted()
      requires Valid()
      modifies this
      ensures Valid()
      ensures showingCompleted == !old(showingCompleted)
      ensures showingDeleted == old(showingDeleted)
      ensures stored == old(stored)[ShowCompletedKey := showingCompleted]
    {
      showingCompleted := !showingCompleted;
      stored := stored[ShowCompletedKey := showingCompleted];
    }

    /** `toggleShowDeleted`: negate the flag and persist the new value. */
    method ToggleShowDeleted()
      requires Valid()
      modifies this
      ensures Valid()
      ensures showingDeleted == !old(showingDeleted)
      ensures showingCompleted == old(showingCompleted)
      ensures stored == old(stored)[ShowDeletedKey := showingDeleted]
    {
      showingDeleted := !showingDeleted;
      stored := stored[ShowDeletedKey := showingDeleted];
    }

    /** `restoreDefaultSettings`: both flags false, both written. */
    method RestoreDefaultSettings()
      requires Valid()
      modifies this
      ensures Valid()
      ensures !showingCompleted && !showingDeleted
      ensures stored == old(stored)[ShowCompletedKey := false][ShowDeletedKey := false]
    {
      SetShowingCompleted(false);
      SetShowingDeleted(false);
    }
  }

  /** Two successive toggles of one setting give back the original settings. */
  method ToggleShowCompletedTwice(s: Settings)
    requires s.Valid()
    modifies s
    ensures s.Valid()
    ensures s.showingCompleted == old(s.showingCompleted)
    ensures s.showingDeleted == old(s.showingDeleted)
    ensures s.stored == old(s.stored)[ShowCompletedKey := s.showingCompleted]
  {
    s.ToggleShowCompleted();
    s.ToggleShowCompleted();
  }

  /** Two successive toggles of one setting give back the original settings. */
  method ToggleShowDeletedTwice(s: Settings)
    requires s.Valid()
    modifies s
    ensures s.Valid()
    ensures s.showingDeleted == old(s.showingDeleted)
    ensures s.showingCompleted == old(s.showingCompleted)
    ensures s.stored == old(s.stored)[ShowDeletedKey := s.showingDeleted]
  {
    s.ToggleShowDeleted();
    s.ToggleShowDeleted();
  }
}
