/**
 * The server's key-value store (tommy_put_init, tommy_put, tommy_get in header.h) on top of
 * the linear hash table.  The string hash is a parameter: keys may collide.
 */
module KvStore {
  import opened Wrappers
  import opened TommyList
  import opened NodeSeqs
  import opened Hashlin

  class Kv {
    const key: string
    var value: string

    constructor (key: string, value: string)
      ensures this.key == key && this.value == value
    {
      this.key := key;
      this.value := value;
    }
  }

  /** The comparison callback of tommy_put and tommy_get. */
  function SameKey(key: string): Kv -> bool {
    (kv: Kv) => kv.key == key
  }

  class KvStore {
    const strhash: string -> nat
    const table: Hashlin<Kv>

    ghost predicate Valid()
      reads this, table, table.buckets, table.buckets.table, table.buckets.table.Repr, table.log
    {
      && table.Valid()
      && this !in table.buckets.table.Repr
      && forall i | 0 <= i < |table.log| ::
           && table.log[i].key == strhash(table.log[i].data.key)
           && table.log[i].data !in table.buckets.table.Repr
    }

    /** The node whose value a get of `key` returns. */
    ghost function Entry(key: string): Node?<Kv>
      reads table`log, table.log`key, table.log`data
    {
      FirstMatch(table.log, strhash(key), SameKey(key))
    }

    lemma EntryMember(key: string)
      ensures var x := Entry(key); x != null ==> x in table.log && x.data.key == key
    {
      FirstMatchMeaning(table.log, strhash(key), SameKey(key));
    }

    lemma EntryNone(key: string)
      requires Valid()
      ensures Entry(key) == null <==> forall i | 0 <= i < |table.log| :: table.log[i].data.key != key
    {
      FirstMatchMeaning(table.log, strhash(key), SameKey(key));
    }

    ghost function Lookup(key: string): Option<string>
      reads table`log, table.log`key, table.log`data, set x | x in table.log :: x.data
    {
      EntryMember(key);
      var x := Entry(key);
      if x == null then None else Some(x.data.value)
    }

    /** At most one node per key. */
    ghost predicate UniqueKeys()
      reads table`log, table.log`data
    {
      forall i, j | 0 <= i < j < |table.log| :: table.log[i].data.key != table.log[j].data.key
    }

    constructor (strhash: string -> nat)
      ensures Valid() && UniqueKeys()
      ensures forall k :: Lookup(k) == None
    {
      this.strhash := strhash;
      table := new Hashlin();
    }

    /** Appends a new node; the log's other nodes, and what they hold, stay as they were. */
    method AddEntry(key: string, value: string)
      requires Valid() && |table.log| + 1 < MAX_COUNT
      modifies table, table.buckets, table.buckets.table.Repr, table.log`next, table.log`prev
      ensures Valid()
      ensures |table.log| == old(|table.log|) + 1 && table.log[..old(|table.log|)] == old(table.log)
      ensures var node := table.log[old(|table.log|)];
              node.data.key == key && node.data.value == value
      ensures forall x | x in old(table.log) ::
                x.key == old(x.key) && x.data == old(x.data) && x.data.value == old(x.data.value)
    {
      hide Hashlin.Valid;
      table.Separate();
      var kv := new Kv(key, value);
      var node := new Node(kv);
      var hash := strhash(key);
      var _ := table.Insert(node, kv, hash);
    }

    /** tommy_put_init: a duplicate key is stored too, behind the first one. */
    method PutInit(key: string, value: string)
      requires Valid() && |table.log| + 1 < MAX_COUNT
      modifies table, table.buckets, table.buckets.table.Repr, table.log`next, table.log`prev
      ensures Valid()
      ensures forall k :: Lookup(k) == if k == key && old(Lookup(k)) == None then Some(value) else old(Lookup(k))
      ensures UniqueKeys() <==> old(UniqueKeys()) && old(Lookup(key)) == None
    {
      hide Hashlin.Valid;
      ghost var log := table.log;
      EntryNone(key);
      forall k ensures Entry(k) != null ==> Entry(k) in table.log {
        EntryMember(k);
      }
      AddEntry(key, value);
      ghost var node := table.log[|log|];
      assert table.log == log + [node];
      forall k ensures Lookup(k) == if k == key && old(Lookup(k)) == None then Some(value) else old(Lookup(k)) {
        FirstMatchAppend(log, node, strhash(k), SameKey(k));
        assert FirstMatch(log, strhash(k), SameKey(k)) == old(Entry(k));
        assert Entry(k) == if old(Entry(k)) == null && k == key then node else old(Entry(k));
      }
    }

    /** tommy_put: a new value for the first node of the key, or a new node. */
    method Put(key: string, value: string)
      requires Valid() && (Lookup(key) == None ==> |table.log| + 1 < MAX_COUNT)
      modifies table, table.buckets, table.buckets.table.Repr, table.log`next, table.log`prev
      modifies set x | x in table.log :: x.data
      ensures Valid()
      ensures forall k :: Lookup(k) == if k == key then Some(value) else old(Lookup(k))
      ensures UniqueKeys() <==> old(UniqueKeys())
    {
      hide Hashlin.Valid;
      var hash := strhash(key);
      var existing := table.Search(hash, SameKey(key));
      if existing != None {
        table.Separate();
        EntryMember(key);
        var kv := existing.value;
        kv.value := value;
        assert table.Valid();
        forall k ensures Lookup(k) == if k == key then Some(value) else old(Lookup(k)) {
          assert Entry(k) == old(Entry(k));
          EntryMember(k);
        }
      } else {
        PutInit(key, value);
      }
    }

    /** tommy_get. */
    method Get(key: string) returns (value: Option<string>)
      requires Valid()
      ensures value == Lookup(key)
    {
      var hash := strhash(key);
      var kv := table.Search(hash, SameKey(key));
      if kv == None {
        return None;
      }
      value := Some(kv.value.value);
    }
  }
}
