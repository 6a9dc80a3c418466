/** configfs_get, configfs_set and configfs_delete of fs/configfs.c on the entry array, for a mounted store. */
module ConfigStore {
  import opened MachineInts
  import opened ConfigTable

  /** An entry; the fields of an invalid one are left over and never read. */
  datatype Entry = Entry(key: Text, value: Text, valid: bool, hash: bv32)

  function AsSlot(e: Entry): Slot {
    if e.valid then Used(e.key, e.value, e.hash) else Free
  }

  function Slots(es: seq<Entry>): (r: seq<Slot>)
    ensures |r| == |es| && forall i | 0 <= i < |es| :: r[i] == AsSlot(es[i])
  {
    seq(|es|, i requires 0 <= i < |es| => AsSlot(es[i]))
  }

  class Store {
    const entries: array<Entry>
    ghost var table: Table
    ghost var settings: map<Text, Text>

    /** The table is the entries', and lookups in it agree with the map `settings`. */
    ghost predicate Valid()
      reads this, entries
    {
      Same() && Inv(table) && Stands(table, settings)
    }

    ghost predicate Same()
      reads this, entries
    {
      entries.Length == SLOTS && Slots(entries[..]) == table
    }

    /** configfs_mount, before it sets the defaults. */
    constructor ()
      ensures Valid() && settings == map[] && table == EmptyTable() && fresh(entries)
    {
      entries := new Entry[SLOTS](_ => Entry([], [], false, 0));
      table, settings := EmptyTable(), map[];
      new;
      assert Slots(entries[..]) == EmptyTable();
    }

    /** The probe loop that all three operations share. */
    method Find(key: Text) returns (r: Probe)
      requires Same()
      ensures r == Search(table, key, 0)
    {
      var h := Hash(key);
      var start := Start(key);
      for i := 0 to SLOTS
        invariant Search(table, key, 0) == Search(table, key, i)
      {
        var idx := (start + i) % SLOTS;
        PosIsMod(start, i);
        assert table[idx] == AsSlot(entries[idx]);
        if !entries[idx].valid {
          return Missing(idx);
        }
        if entries[idx].hash == h && entries[idx].key == key {
          return Found(idx);
        }
      }
      r := Full;
    }

    /** configfs_get: the stored value, cut to the caller's buffer. */
    method Get(key: Text, maxLen: nat) returns (r: Option<Text>)
      requires Valid()
      ensures r == if maxLen > 0 && key in settings then Some(Cut(settings[key], maxLen)) else None
    {
      if maxLen == 0 {
        return None;
      }
      var p := Find(key);
      SearchAgrees(table, settings, key);
      if !p.Found? {
        return None;
      }
      assert table[p.at] == AsSlot(entries[p.at]);
      r := Some(Cut(entries[p.at].value, maxLen));
    }

    /** configfs_set; the value is cut to 255 characters, the key to 63. */
    method Set(key: Text, value: Text) returns (ok: bool)
      requires Valid()
      modifies entries, this`table, this`settings
      ensures Same()
      ensures !ok <==> key !in old(settings) && forall p | 0 <= p < SLOTS :: old(table)[p].Used?
      ensures !ok ==> table == old(table) && settings == old(settings)
      ensures ok && |key| < KEY_MAX ==> Valid() && settings == old(settings)[key := Cut(value, VALUE_MAX)]
      ensures ok && |key| >= KEY_MAX && Hash(key) != Hash(Cut(key, KEY_MAX)) ==> Valid() && settings == old(settings)
      ensures ok && |key| >= KEY_MAX && Hash(key) == Hash(Cut(key, KEY_MAX)) ==>
        if Cut(key, KEY_MAX) in old(settings) then settings == old(settings) && LooksUp(table, settings) && !Inv(table)
        else Valid() && settings == old(settings)[Cut(key, KEY_MAX) := Cut(value, VALUE_MAX)]
    {
      SetFails(table, settings, key, value);
      var p := Find(key);
      if p.Full? {
        return false;
      }
      ghost var t := table;
      if p.Missing? {
        entries[p.free] := Entry(Cut(key, KEY_MAX), Cut(value, VALUE_MAX), true, Hash(key));
      } else {
        assert table[p.at] == AsSlot(entries[p.at]);
        entries[p.at] := entries[p.at].(value := Cut(value, VALUE_MAX));
      }
      table := ConfigTable.Set(table, key, value).value;
      if |key| < KEY_MAX {
        SetShort(t, settings, key, value);
        settings := settings[key := Cut(value, VALUE_MAX)];
      } else if Hash(key) != Hash(Cut(key, KEY_MAX)) {
        SetLong(t, settings, key, value);
      } else if Cut(key, KEY_MAX) in settings {
        SetCollidingKnown(t, settings, key, value);
      } else {
        SetCollidingNew(t, settings, key, value);
        SetShort(t, settings, Cut(key, KEY_MAX), value);
        settings := settings[Cut(key, KEY_MAX) := Cut(value, VALUE_MAX)];
      }
      ok := true;
    }

    /** configfs_delete; lookups go on agreeing with the map when no other key's probe passes over the freed slot. */
    method Delete(key: Text) returns (ok: bool)
      requires Valid()
      modifies entries, this`table, this`settings
      ensures Same() && (ok <==> key in old(settings))
      ensures !ok ==> table == old(table) && settings == old(settings)
      ensures ok ==> settings == old(settings) - {key} && Stands(table, settings)
      ensures ok ==> Search(old(table), key, 0).Found?
      ensures ok && (forall j | 0 <= j < SLOTS :: !Crosses(old(table), Search(old(table), key, 0).at, j)) ==> Valid()
    {
      SearchAgrees(table, settings, key);
      var p := Find(key);
      if !p.Found? {
        return false;
      }
      ghost var t := table;
      entries[p.at] := entries[p.at].(valid := false);
      table := t[p.at := Free];
      StandsWithout(t, settings, key, p.at);
      settings := settings - {key};
      if forall j | 0 <= j < SLOTS :: !Crosses(t, p.at, j) {
        DeleteKeepsInv(t, key, p.at);
      }
      ok := true;
    }
  }
}
