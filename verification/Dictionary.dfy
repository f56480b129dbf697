/** The chained hash table of keyvalue_store.c, with its linked bins. */
module Dictionary {
  import opened Options

  // ----- bins as lists of pairs -----

  type Bin = seq<(string, string)>

  /** Position of a key in a bin, or the bin's length. */
  function Find(bin: Bin, key: string): (i: nat)
    ensures i <= |bin|
    ensures i < |bin| ==> bin[i].0 == key
    ensures forall j :: 0 <= j < i ==> bin[j].0 != key
  {
    if bin == [] || bin[0].0 == key then 0 else 1 + Find(bin[1..], key)
  }

  function AddTo(bin: Bin, key: string, value: string): Bin
  {
    var i := Find(bin, key);
    if i < |bin| then bin[i := (key, value)] else bin + [(key, value)]
  }

  /** As coded: removing the head of a bin drops the whole bin. */
  function RemoveFrom(bin: Bin, key: string): Bin
  {
    var i := Find(bin, key);
    if i == |bin| then bin else if i == 0 then [] else bin[..i] + bin[i + 1..]
  }

  ghost predicate UniqueKeys(bin: Bin)
  {
    forall i, j :: 0 <= i < j < |bin| ==> bin[i].0 != bin[j].0
  }

  function Lookup(bin: Bin, key: string): Option<string>
  {
    var i := Find(bin, key);
    if i < |bin| then Some(bin[i].1) else None
  }

  lemma FindUnique(bin: Bin, key: string, i: nat)
    requires UniqueKeys(bin) && i < |bin| && bin[i].0 == key
    ensures Find(bin, key) == i
  {
  }

  lemma FindNone(bin: Bin, key: string)
    requires forall i :: 0 <= i < |bin| ==> bin[i].0 != key
    ensures Find(bin, key) == |bin|
  {
  }

  /** Adding stores the value under its key and touches no other key. */
  lemma AddMeaning(bin: Bin, key: string, value: string, other: string)
    requires UniqueKeys(bin)
    ensures UniqueKeys(AddTo(bin, key, value))
    ensures Lookup(AddTo(bin, key, value), other) == if other == key then Some(value) else Lookup(bin, other)
  {
    var r := AddTo(bin, key, value);
    var i := Find(bin, key);
    FindUnique(r, key, i);
    if other != key {
      var j := Find(bin, other);
      if j < |bin| {
        FindUnique(r, other, j);
      } else {
        FindNone(r, other);
      }
    }
  }

  /** Removing deletes exactly its key if the key is behind the head or alone in its bin; a head with
      successors takes its whole bin with it. */
  lemma RemoveMeaning(bin: Bin, key: string, other: string)
    requires UniqueKeys(bin)
    ensures UniqueKeys(RemoveFrom(bin, key))
    ensures Lookup(RemoveFrom(bin, key), other) ==
      if other == key || (|bin| > 1 && bin[0].0 == key) then None else Lookup(bin, other)
  {
    var r := RemoveFrom(bin, key);
    var i, j := Find(bin, key), Find(bin, other);
    if i < |bin| && i > 0 {
      if other != key && j < |bin| {
        FindUnique(r, other, if j < i then j else j - 1);
      } else {
        FindNone(r, other);
      }
    }
  }

  /** Removal is exact for every other key exactly when the removed key is not a head with successors. */
  lemma RemoveExactly(bin: Bin, key: string)
    requires UniqueKeys(bin)
    ensures (forall other :: Lookup(RemoveFrom(bin, key), other) == if other == key then None else Lookup(bin, other)) <==>
            !(|bin| > 1 && bin[0].0 == key)
  {
    forall other
      ensures Lookup(RemoveFrom(bin, key), other) ==
        if other == key || (|bin| > 1 && bin[0].0 == key) then None else Lookup(bin, other)
    {
      RemoveMeaning(bin, key, other);
    }
    if |bin| > 1 && bin[0].0 == key {
      FindUnique(bin, bin[1].0, 1);
      assert Lookup(RemoveFrom(bin, key), bin[1].0) == None;
    }
  }

  // ----- the table -----

  /** A list node; bin is the bin it was created for. */
  class Entry {
    ghost const bin: nat
    var key: string
    var value: string
    var next: Entry?

    constructor (ghost bin: nat, key: string, value: string)
      ensures this.key == key && this.value == value && next == null && this.bin == bin
    {
      this.bin := bin;
      this.key, this.value, this.next := key, value, null;
    }
  }

  /** The entries of a list as pairs. */
  ghost function Pairs(c: seq<Entry>): (l: Bin)
    reads c
    ensures |l| == |c|
  {
    seq(|c|, i requires 0 <= i < |c| reads c => (c[i].key, c[i].value))
  }

  /** c is the list that starts at head, in bin b. */
  ghost predicate Chain(head: Entry?, c: seq<Entry>, b: nat)
    reads c
  {
    && head == (if c == [] then null else c[0])
    && (forall i {:trigger c[i]} :: 0 <= i < |c| ==> c[i].bin == b && c[i].next == if i + 1 < |c| then c[i + 1] else null)
    && (forall i, j {:trigger c[i], c[j]} :: 0 <= i < j < |c| ==> c[i] != c[j])
  }

  class HashTable {
    const size: nat
    const hash: string -> nat
    const table: array<Entry?>
    ghost var chains: seq<seq<Entry>>
    ghost var repr: set<object>

    ghost predicate Valid()
      reads this, table, repr
    {
      && this in repr && table in repr
      && 0 < size == table.Length == |chains|
      && (forall b: nat {:trigger BinValid(b)} :: b < size ==> BinValid(b))
    }

    /** The list of a bin is the one its chain names, and well formed. */
    ghost predicate BinValid(b: nat)
      reads this, table, repr
      requires b < |chains| && b < table.Length
    {
      && (forall i {:trigger chains[b][i]} :: 0 <= i < |chains[b]| ==> chains[b][i] in repr)
      && Chain(table[b], chains[b], b)
      && BinOk(b, Pairs(chains[b]))
    }

    /** Keys are unique in a bin, and each is in the bin of its hash. */
    ghost predicate BinOk(b: nat, l: Bin)
    {
      size > 0 && UniqueKeys(l) && forall i :: 0 <= i < |l| ==> BinIndex(l[i].0) == b
    }

    function BinIndex(key: string): (b: nat)
      requires size > 0
      ensures b < size
    {
      hash(key) % size
    }

    /** The contents: all bins as lists of pairs. */
    ghost function Bins(): (bins: seq<Bin>)
      reads this, table, repr
      requires Valid()
      ensures |bins| == size && forall b :: 0 <= b < size ==> bins[b] == Pairs(chains[b])
    {
      seq(size, b requires 0 <= b < size && Valid() reads this, table, repr => assert BinValid(b); Pairs(chains[b]))
    }

    /** What the lemmas about tables need holds of every valid table. */
    lemma ValidIsTableOk()
      requires Valid()
      ensures TableOk(hash, Bins())
    {
      forall b | 0 <= b < size
        ensures UniqueKeys(Bins()[b]) && forall i :: 0 <= i < |Bins()[b]| ==> hash(Bins()[b][i].0) % size == b
      {
        assert BinValid(b);
      }
    }

    constructor (size: nat, hash: string -> nat)
      requires size > 0
      ensures Valid() && fresh(repr) && this.size == size && this.hash == hash
      ensures forall b :: 0 <= b < size ==> Bins()[b] == []
    {
      this.size := size;
      this.hash := hash;
      table := new Entry?[size](_ => null);
      chains := seq(size, _ => []);
      new;
      repr := {this, table};
    }

    /** The search loop of all operations: the first entry with the key, if any, and the entry before it. */
    method Locate(key: string) returns (bin: nat, last: Entry?, pair: Entry?, ghost i: nat)
      requires Valid()
      ensures bin == BinIndex(key) && i == Find(Pairs(chains[bin]), key)
      ensures pair == if i < |chains[bin]| then chains[bin][i] else null
      ensures i > 0 ==> last == chains[bin][i - 1]
    {
      bin := BinIndex(key);
      assert BinValid(bin);
      pair := table[bin];
      last := pair;
      ghost var c := chains[bin];
      i := 0;
      while pair != null && pair.key != key
        invariant 0 <= i <= |c| && pair == (if i < |c| then c[i] else null)
        invariant i > 0 ==> last == c[i - 1]
        invariant forall j :: 0 <= j < i ==> Pairs(c)[j].0 != key
        decreases |c| - i
      {
        assert c[i].next == if i + 1 < |c| then c[i + 1] else null;
        last := pair;
        pair := pair.next;
        i := i + 1;
      }
      if pair == null {
        FindNone(Pairs(c), key);
      } else {
        FindUnique(Pairs(c), key, i);
      }
    }

    /** The lists of the other bins stay as they are. */
    twostate lemma OtherBinsStay(b: nat)
      requires old(Valid()) && b < size == |chains| && old(repr) <= repr
      requires forall k: nat {:trigger table[k]} :: k < size && k != b ==> table[k] == old(table[k]) && chains[k] == old(chains[k])
      requires forall x: Entry {:trigger x in old(repr)} :: x in old(repr) && x.bin != b ==>
        x.key == old(x.key) && x.value == old(x.value) && x.next == old(x.next)
      ensures forall k: nat {:trigger BinValid(k)} :: k < size && k != b ==> BinValid(k) && Pairs(chains[k]) == old(Pairs(chains[k]))
    {
      forall k: nat {:trigger BinValid(k)} | k < size && k != b
        ensures BinValid(k) && Pairs(chains[k]) == old(Pairs(chains[k]))
      {
        var c := chains[k];
        assert old(BinValid(k)) && table[k] == old(table[k]) && c == old(chains[k]);
        assert forall i {:trigger c[i]} :: 0 <= i < |c| ==> c[i] in old(repr) && c[i].bin == k;
        assert Pairs(c) == old(Pairs(c));
        assert Chain(table[k], c, k);
        assert BinOk(k, Pairs(c));
      }
    }

    /** Changing one bin only, and leaving its list well formed, keeps the table valid. */
    twostate lemma OneBinChanged(b: nat, new c: seq<Entry>)
      requires old(Valid()) && b < size
      requires chains == old(chains)[b := c] && old(repr) <= repr && this in repr && table in repr
      requires forall i {:trigger c[i]} :: 0 <= i < |c| ==> c[i] in repr
      requires forall k: nat {:trigger table[k]} :: k < size && k != b ==> table[k] == old(table[k])
      requires forall x: Entry {:trigger x in old(repr)} :: x in old(repr) && x.bin != b ==>
        x.key == old(x.key) && x.value == old(x.value) && x.next == old(x.next)
      requires Chain(table[b], c, b) && BinOk(b, Pairs(c))
      ensures Valid() && Bins() == old(Bins())[b := Pairs(c)]
    {
      OtherBinsStay(b);
      assert BinValid(b);
      forall k: nat | k < size ensures Bins()[k] == old(Bins())[b := Pairs(c)][k] {
        assert BinValid(k);
      }
    }

    /** reprompib_get_value_from_dict; a missing key is refused. */
    method Get(key: Option<string>) returns (ret: int, value: Option<string>)
      requires Valid()
      ensures key.None? ==> value == None
      ensures key.Some? ==> value == TableLookup(hash, Bins(), key.value)
      ensures ret == if value.Some? then 0 else 1
    {
      if key.None? {
        return 1, None;
      }
      var bin, last, pair, i := Locate(key.value);
      if pair == null {
        return 1, None;
      }
      ret, value := 0, Some(pair.value);
    }

    /** A key that is there already gets the new value. */
    method ReplaceValue(bin: nat, entry: Entry, ghost i: nat, value: string)
      requires Valid() && bin < size && i < |chains[bin]| && entry == chains[bin][i]
      requires i == Find(Pairs(chains[bin]), entry.key)
      modifies repr
      ensures Valid() && repr == old(repr)
      ensures Bins() == old(Bins())[bin := AddTo(old(Bins()[bin]), old(entry.key), value)]
    {
      assert BinValid(bin);
      ghost var c, before := chains[bin], Pairs(chains[bin]);
      AddMeaning(before, entry.key, value, entry.key);
      entry.value := value;
      assert Pairs(c) == before[i := (entry.key, value)];
      assert chains == old(chains)[bin := c];
      OneBinChanged(bin, c);
    }

    /** A list with one more entry, to which its last entry points already. */
    lemma AppendedChain(head: Entry, c: seq<Entry>, b: nat, e: Entry)
      requires head == (if c == [] then e else c[0]) && e !in c && e.bin == b && e.next == null
      requires forall k {:trigger c[k]} :: 0 <= k < |c| ==> c[k].bin == b && c[k].next == if k + 1 < |c| then c[k + 1] else e
      requires forall k, l {:trigger c[k], c[l]} :: 0 <= k < l < |c| ==> c[k] != c[l]
      ensures Chain(head, c + [e], b)
      ensures Pairs(c + [e]) == Pairs(c) + [(e.key, e.value)]
    {
      var c' := c + [e];
      forall k {:trigger c'[k]} | 0 <= k < |c'|
        ensures c'[k].bin == b && c'[k].next == if k + 1 < |c'| then c'[k + 1] else null
      {
        assert k < |c| ==> c'[k] == c[k];
      }
    }

    /** Lets the last entry of a list point to a new one. */
    method LinkLast(bin: nat, last: Entry, newpair: Entry, ghost c: seq<Entry>)
      requires c != [] && last == c[|c| - 1] && Chain(c[0], c, bin)
      requires newpair !in c && newpair.bin == bin && newpair.next == null
      modifies last`next
      ensures Chain(c[0], c + [newpair], bin)
      ensures Pairs(c + [newpair]) == old(Pairs(c)) + [(newpair.key, newpair.value)]
    {
      last.next := newpair;
      AppendedChain(c[0], c, bin, newpair);
      assert Pairs(c) == old(Pairs(c));
    }

    /** Puts a new entry at the end of a bin's list. */
    method PutLast(bin: nat, last: Entry?, key: string, value: string) returns (newpair: Entry)
      requires bin < |chains| && bin < table.Length && Chain(table[bin], chains[bin], bin)
      requires chains[bin] != [] ==> last == chains[bin][|chains[bin]| - 1]
      modifies this`chains, table, set x | x in chains[bin] && x == last
      ensures fresh(newpair) && newpair.bin == bin
      ensures chains == old(chains)[bin := old(chains[bin]) + [newpair]]
      ensures Chain(table[bin], old(chains[bin]) + [newpair], bin)
      ensures Pairs(old(chains[bin]) + [newpair]) == old(Pairs(chains[bin])) + [(key, value)]
      ensures forall k: nat {:trigger table[k]} :: k < table.Length && k != bin ==> table[k] == old(table[k])
    {
      ghost var c := chains[bin];
      newpair := new Entry(bin, key, value);
      if table[bin] == null {
        table[bin] := newpair;
        AppendedChain(newpair, c, bin, newpair);
      } else {
        assert last in c;
        LinkLast(bin, last, newpair, c);
      }
      chains := chains[bin := c + [newpair]];
    }

    /** A new key goes to the end of its bin. */
    method AppendEntry(bin: nat, last: Entry?, key: string, value: string)
      requires Valid() && bin == BinIndex(key) && Find(Pairs(chains[bin]), key) == |chains[bin]|
      requires chains[bin] != [] ==> last == chains[bin][|chains[bin]| - 1]
      modifies repr
      ensures Valid() && fresh(repr - old(repr))
      ensures Bins() == old(Bins())[bin := AddTo(old(Bins()[bin]), key, value)]
    {
      assert BinValid(bin);
      ghost var c, before := chains[bin], Pairs(chains[bin]);
      AppendKeepsBin(bin, before, key, value);
      assert chains[bin] != [] ==> last.bin == bin;
      var newpair := PutLast(bin, last, key, value);
      repr := repr + {newpair};
      OneBinChanged(bin, c + [newpair]);
    }

    /** reprompib_add_element_to_dict; a missing key or value is refused. */
    method Add(key: Option<string>, value: Option<string>) returns (ret: int)
      requires Valid()
      modifies repr
      ensures Valid() && fresh(repr - old(repr))
      ensures ret == if key.Some? && value.Some? then 0 else 1
      ensures ret == 1 ==> Bins() == old(Bins())
      ensures ret == 0 ==> Bins() == Applied(hash, old(Bins()), AddOp(key.value, value.value))
    {
      if key.None? || value.None? {
        return 1;
      }
      var bin, last, next, i := Locate(key.value);
      if next != null {
        ReplaceValue(bin, next, i, value.value);
      } else {
        AppendEntry(bin, last, key.value, value.value);
      }
      ret := 0;
    }

    /** reprompib_remove_element_from_dict */
    method Remove(key: Option<string>) returns (ret: int)
      requires Valid()
      modifies repr
      ensures Valid() && repr == old(repr)
      ensures ret == if key.Some? && TableLookup(hash, old(Bins()), key.value).Some? then 0 else 1
      ensures key.None? ==> Bins() == old(Bins())
      ensures key.Some? ==> Bins() == Applied(hash, old(Bins()), RemoveOp(key.value))
    {
      if key.None? {
        return 1;
      }
      var bin, last, pair, i := Locate(key.value);
      if pair == null {
        return 1;
      }
      assert BinValid(bin);
      assert chains[bin][i] == pair && (i > 0 ==> chains[bin][i] != chains[bin][0]);
      if pair == table[bin] {
        DropBin(bin, pair);
      } else {
        Unlink(bin, last, pair, i);
      }
      ret := 0;
    }

    /** The head of a list goes, and the list with it. */
    method DropBin(bin: nat, pair: Entry)
      requires Valid() && bin < size && pair == table[bin]
      modifies this`chains, table
      ensures Valid() && repr == old(repr)
      ensures Bins() == old(Bins())[bin := RemoveFrom(old(Bins()[bin]), old(pair.key))]
    {
      assert BinValid(bin);
      assert pair == chains[bin][0] && Find(Pairs(chains[bin]), pair.key) == 0;
      table[bin] := null;
      chains := chains[bin := []];
      OneBinChanged(bin, []);
    }

    /** Bypassing entry i: the entry before it already points to the one behind it. */
    lemma BypassedChain(head: Entry, c: seq<Entry>, b: nat, i: nat)
      requires 0 < i < |c| && head == c[0]
      requires forall k {:trigger c[k]} :: 0 <= k < |c| ==> c[k].bin == b
      requires forall k {:trigger c[k]} :: 0 <= k < |c| && k != i - 1 ==> c[k].next == if k + 1 < |c| then c[k + 1] else null
      requires c[i - 1].next == if i + 1 < |c| then c[i + 1] else null
      requires forall k, l {:trigger c[k], c[l]} :: 0 <= k < l < |c| ==> c[k] != c[l]
      ensures Chain(head, c[..i] + c[i + 1..], b)
    {
      var c' := c[..i] + c[i + 1..];
      forall k {:trigger c'[k]} | 0 <= k < |c'|
        ensures c'[k].bin == b && c'[k].next == if k + 1 < |c'| then c'[k + 1] else null
      {
        var j := if k < i then k else k + 1;
        assert c'[k] == c[j];
      }
    }

    /** Lets the entry before position i point behind it. */
    method LinkAround(bin: nat, last: Entry, pair: Entry, ghost c: seq<Entry>, ghost i: nat)
      requires 0 < i < |c| && pair == c[i] && last == c[i - 1] && Chain(c[0], c, bin)
      modifies last`next
      ensures Chain(c[0], c[..i] + c[i + 1..], bin)
      ensures Pairs(c) == old(Pairs(c))
    {
      assert c[i].next == if i + 1 < |c| then c[i + 1] else null;
      last.next := pair.next;
      BypassedChain(c[0], c, bin, i);
    }

    /** Takes the entry at position i out of a list; c' is the list without it. */
    method BypassEntry(bin: nat, last: Entry, pair: Entry, ghost c: seq<Entry>, ghost i: nat, ghost c': seq<Entry>)
      requires 0 < i < |c| && pair == c[i] && last == c[i - 1] && Chain(c[0], c, bin)
      requires i == Find(Pairs(c), pair.key) && c' == c[..i] + c[i + 1..]
      modifies last`next
      ensures Chain(c[0], c', bin)
      ensures Pairs(c') == RemoveFrom(old(Pairs(c)), old(pair.key))
    {
      LinkAround(bin, last, pair, c, i);
      PairsWithout(c, pair.key, i);
    }

    lemma PairsWithout(c: seq<Entry>, key: string, i: nat)
      requires 0 < i < |c| && i == Find(Pairs(c), key)
      ensures Pairs(c[..i] + c[i + 1..]) == RemoveFrom(Pairs(c), key)
    {
    }

    lemma AppendKeepsBin(b: nat, l: Bin, key: string, value: string)
      requires size > 0 && BinOk(b, l) && b == BinIndex(key) && Find(l, key) == |l|
      ensures AddTo(l, key, value) == l + [(key, value)] && BinOk(b, l + [(key, value)])
    {
      AddMeaning(l, key, value, key);
    }

    lemma RemoveKeepsBin(b: nat, l: Bin, key: string)
      requires BinOk(b, l)
      ensures BinOk(b, RemoveFrom(l, key))
    {
      RemoveMeaning(l, key, key);
    }

    /** Takes the entry at position i, behind the head, out of its list. */
    method Unlink(bin: nat, last: Entry, pair: Entry, ghost i: nat)
      requires Valid() && bin < size && 0 < i < |chains[bin]| && pair == chains[bin][i] && last == chains[bin][i - 1]
      requires i == Find(Pairs(chains[bin]), pair.key)
      modifies this`chains, last`next
      ensures Valid() && repr == old(repr)
      ensures Bins() == old(Bins())[bin := RemoveFrom(old(Bins()[bin]), old(pair.key))]
    {
      assert BinValid(bin);
      ghost var c, before := chains[bin], Pairs(chains[bin]);
      RemoveKeepsBin(bin, before, pair.key);
      assert last.bin == bin;
      ghost var c' := c[..i] + c[i + 1..];
      assert forall k {:trigger c'[k]} :: 0 <= k < |c'| ==> c'[k] in repr;
      chains := chains[bin := c'];
      BypassEntry(bin, last, pair, c, i, c');
      OneBinChanged(bin, c');
    }

    /** reprompib_dict_get_nkeys */
    method GetNKeys() returns (nkeys: nat)
      requires Valid()
      ensures nkeys == |AllKeys(Bins())|
    {
      nkeys := 0;
      ghost var bins := Bins();
      for i := 0 to size
        invariant nkeys == |AllKeys(bins[..i])|
      {
        AllKeysSnoc(bins[..i], bins[i]);
        assert bins[..i] + [bins[i]] == bins[..i + 1];
        assert BinValid(i);
        var cur := table[i];
        ghost var c, k := chains[i], 0;
        while cur != null
          invariant 0 <= k <= |c| && cur == (if k < |c| then c[k] else null)
          invariant nkeys == |AllKeys(bins[..i])| + k
          decreases |c| - k
        {
          assert c[k].next == if k + 1 < |c| then c[k + 1] else null;
          nkeys := nkeys + 1;
          cur := cur.next;
          k := k + 1;
        }
      }
      assert bins[..size] == bins;
    }

    /** The keys of one bin, in list order. */
    method BinKeys(b: nat) returns (keys: seq<string>)
      requires Valid() && b < size
      ensures keys == KeysOf(Bins()[b])
    {
      keys := [];
      assert BinValid(b);
      var cur := table[b];
      ghost var c, k := chains[b], 0;
      ghost var all := KeysOf(Pairs(c));
      while cur != null
        invariant 0 <= k <= |c| && cur == (if k < |c| then c[k] else null)
        invariant keys == all[..k]
        decreases |c| - k
      {
        assert c[k].next == if k + 1 < |c| then c[k + 1] else null;
        assert all[..k + 1] == all[..k] + [cur.key];
        keys := keys + [cur.key];
        cur := cur.next;
        k := k + 1;
      }
      assert all[..|c|] == all;
    }

    /** reprompib_get_keys_from_dict */
    method GetKeys() returns (keys: seq<string>)
      requires Valid()
      ensures keys == AllKeys(Bins())
    {
      keys := [];
      ghost var bins := Bins();
      for i := 0 to size
        invariant keys == AllKeys(bins[..i])
      {
        AllKeysSnoc(bins[..i], bins[i]);
        assert bins[..i] + [bins[i]] == bins[..i + 1];
        var binKeys := BinKeys(i);
        keys := keys + binKeys;
      }
      assert bins[..size] == bins;
    }
  }

  function KeysOf(bin: Bin): (k: seq<string>)
    ensures |k| == |bin|
  {
    seq(|bin|, i requires 0 <= i < |bin| => bin[i].0)
  }

  /** All keys, bin by bin. */
  function AllKeys(bins: seq<Bin>): seq<string>
  {
    if bins == [] then [] else KeysOf(bins[0]) + AllKeys(bins[1..])
  }

  lemma {:induction false} AllKeysSnoc(bins: seq<Bin>, bin: Bin)
    ensures AllKeys(bins + [bin]) == AllKeys(bins) + KeysOf(bin)
  {
    if bins == [] {
      assert bins + [bin] == [bin];
      assert [bin][1..] == [];
    } else {
      assert (bins + [bin])[1..] == bins[1..] + [bin];
      AllKeysSnoc(bins[1..], bin);
    }
  }

  // ----- the table as a map -----

  /** Bins with unique keys, each key in the bin of its hash. */
  ghost predicate TableOk(hash: string -> nat, bins: seq<Bin>)
  {
    bins != [] && forall b {:trigger bins[b]} :: 0 <= b < |bins| ==>
      UniqueKeys(bins[b]) && forall i :: 0 <= i < |bins[b]| ==> hash(bins[b][i].0) % |bins| == b
  }

  function BinFor(hash: string -> nat, bins: seq<Bin>, key: string): (b: nat)
    requires bins != []
    ensures b < |bins|
  {
    hash(key) % |bins|
  }

  function TableLookup(hash: string -> nat, bins: seq<Bin>, key: string): Option<string>
    requires bins != []
  {
    Lookup(bins[BinFor(hash, bins, key)], key)
  }

  datatype Op = AddOp(key: string, value: string) | RemoveOp(key: string)

  function Applied(hash: string -> nat, bins: seq<Bin>, op: Op): (r: seq<Bin>)
    requires bins != []
    ensures |r| == |bins|
  {
    var b := BinFor(hash, bins, op.key);
    bins[b := if op.AddOp? then AddTo(bins[b], op.key, op.value) else RemoveFrom(bins[b], op.key)]
  }

  function AppliedAll(hash: string -> nat, bins: seq<Bin>, ops: seq<Op>): (r: seq<Bin>)
    requires bins != []
    ensures |r| == |bins|
  {
    if ops == [] then bins else Applied(hash, AppliedAll(hash, bins, ops[..|ops| - 1]), ops[|ops| - 1])
  }

  /** What a map would hold under a key: what the last operation on the key left there, or what was there
      before. */
  function LastWrite(ops: seq<Op>, key: string, before: Option<string>): Option<string>
  {
    if ops == [] then before
    else
      var op := ops[|ops| - 1];
      if op.key != key then LastWrite(ops[..|ops| - 1], key, before)
      else if op.AddOp? then Some(op.value) else None
  }

  /** A removal that drops other keys with its own: the key heads a bin with further entries. */
  predicate Drops(hash: string -> nat, bins: seq<Bin>, op: Op)
    requires bins != []
  {
    var bin := bins[BinFor(hash, bins, op.key)];
    op.RemoveOp? && |bin| > 1 && bin[0].0 == op.key
  }

  /** One operation keeps the table well formed; every key of another bin keeps its value, and in its own bin an
      operation that drops nothing changes its own key only. */
  lemma AppliedMeaning(hash: string -> nat, bins: seq<Bin>, op: Op, key: string)
    requires TableOk(hash, bins)
    ensures TableOk(hash, Applied(hash, bins, op))
    ensures !Drops(hash, bins, op) ==>
      TableLookup(hash, Applied(hash, bins, op), key) == LastWrite([op], key, TableLookup(hash, bins, key))
  {
    var b := BinFor(hash, bins, op.key);
    if op.AddOp? {
      AddMeaning(bins[b], op.key, op.value, key);
    } else {
      RemoveMeaning(bins[b], op.key, key);
    }
    AppliedOk(hash, bins, op);
    assert [op][..0] == [];
  }

  lemma AppliedOk(hash: string -> nat, bins: seq<Bin>, op: Op)
    requires TableOk(hash, bins)
    ensures TableOk(hash, Applied(hash, bins, op))
  {
    var b := BinFor(hash, bins, op.key);
    if op.AddOp? {
      AddMeaning(bins[b], op.key, op.value, op.key);
    } else {
      RemoveMeaning(bins[b], op.key, op.key);
    }
  }

  /** A removal that drops other keys is noticed: some other key is gone. */
  lemma DroppedKey(hash: string -> nat, bins: seq<Bin>, op: Op) returns (key: string)
    requires TableOk(hash, bins) && Drops(hash, bins, op)
    ensures key != op.key
    ensures TableLookup(hash, bins, key).Some? && TableLookup(hash, Applied(hash, bins, op), key).None?
  {
    var b := BinFor(hash, bins, op.key);
    key := bins[b][1].0;
    FindUnique(bins[b], key, 1);
    FindUnique(bins[b], op.key, 0);
    assert BinFor(hash, bins, key) == b;
  }

  /** No removal in the sequence drops other keys. */
  ghost predicate CleanRemovals(hash: string -> nat, bins: seq<Bin>, ops: seq<Op>)
    requires bins != []
  {
    forall n: nat {:trigger ops[n]} :: n < |ops| ==> !Drops(hash, AppliedAll(hash, bins, ops[..n]), ops[n])
  }

  /** After the first n operations, looking a key up gives what a map would hold. */
  ghost predicate MapAt(hash: string -> nat, bins: seq<Bin>, ops: seq<Op>, n: nat, key: string)
    requires bins != [] && n <= |ops|
  {
    TableLookup(hash, AppliedAll(hash, bins, ops[..n]), key) == LastWrite(ops[..n], key, TableLookup(hash, bins, key))
  }

  lemma {:induction false} StaysOk(hash: string -> nat, bins: seq<Bin>, ops: seq<Op>)
    requires TableOk(hash, bins)
    ensures TableOk(hash, AppliedAll(hash, bins, ops))
    decreases |ops|
  {
    if ops != [] {
      StaysOk(hash, bins, ops[..|ops| - 1]);
      AppliedOk(hash, AppliedAll(hash, bins, ops[..|ops| - 1]), ops[|ops| - 1]);
    }
  }

  lemma OneMoreOp(hash: string -> nat, bins: seq<Bin>, ops: seq<Op>, n: nat, key: string, before: Option<string>)
    requires bins != [] && n < |ops|
    ensures AppliedAll(hash, bins, ops[..n + 1]) == Applied(hash, AppliedAll(hash, bins, ops[..n]), ops[n])
    ensures LastWrite(ops[..n + 1], key, before) == LastWrite([ops[n]], key, LastWrite(ops[..n], key, before))
    ensures ops[n].key != key ==> LastWrite(ops[..n + 1], key, before) == LastWrite(ops[..n], key, before)
  {
    assert ops[..n + 1][..n] == ops[..n];
    assert [ops[n]][..0] == [];
  }

  lemma MapAtNext(hash: string -> nat, bins: seq<Bin>, ops: seq<Op>, n: nat, key: string)
    requires TableOk(hash, bins) && n < |ops| && MapAt(hash, bins, ops, n, key)
    requires !Drops(hash, AppliedAll(hash, bins, ops[..n]), ops[n])
    ensures MapAt(hash, bins, ops, n + 1, key)
  {
    StaysOk(hash, bins, ops[..n]);
    OneMoreOp(hash, bins, ops, n, key, TableLookup(hash, bins, key));
    AppliedMeaning(hash, AppliedAll(hash, bins, ops[..n]), ops[n], key);
  }

  lemma {:induction false} CleanActsAsMap(hash: string -> nat, bins: seq<Bin>, ops: seq<Op>, n: nat, key: string)
    requires TableOk(hash, bins) && CleanRemovals(hash, bins, ops) && n <= |ops|
    ensures MapAt(hash, bins, ops, n, key)
  {
    if n == 0 {
      assert ops[..0] == [];
    } else {
      CleanActsAsMap(hash, bins, ops, n - 1, key);
      assert !Drops(hash, AppliedAll(hash, bins, ops[..n - 1]), ops[n - 1]);
      MapAtNext(hash, bins, ops, n - 1, key);
    }
  }

  /** A removal that drops other keys shows: some key is looked up right before it or wrong after it. */
  lemma DropShows(hash: string -> nat, bins: seq<Bin>, ops: seq<Op>, n: nat) returns (key: string)
    requires TableOk(hash, bins) && n < |ops| && Drops(hash, AppliedAll(hash, bins, ops[..n]), ops[n])
    ensures MapAt(hash, bins, ops, n, key) ==> !MapAt(hash, bins, ops, n + 1, key)
  {
    StaysOk(hash, bins, ops[..n]);
    key := DroppedKey(hash, AppliedAll(hash, bins, ops[..n]), ops[n]);
    OneMoreOp(hash, bins, ops, n, key, TableLookup(hash, bins, key));
  }

  /** Looking up any key after any number of the operations gives what a map would hold. */
  ghost predicate ActsAsMap(hash: string -> nat, bins: seq<Bin>, ops: seq<Op>)
    requires bins != []
  {
    forall n: nat, key {:trigger MapAt(hash, bins, ops, n, key)} :: n <= |ops| ==> MapAt(hash, bins, ops, n, key)
  }

  /** Over any sequence of adds and removals the table stays well formed, and it behaves as a map all along if
      and only if no removal is of a key that heads a bin with further entries. */
  lemma ActsAsMapExactly(hash: string -> nat, bins: seq<Bin>, ops: seq<Op>)
    requires TableOk(hash, bins)
    ensures TableOk(hash, AppliedAll(hash, bins, ops))
    ensures ActsAsMap(hash, bins, ops) <==> CleanRemovals(hash, bins, ops)
  {
    StaysOk(hash, bins, ops);
    if CleanRemovals(hash, bins, ops) {
      forall n: nat, key | n <= |ops| ensures MapAt(hash, bins, ops, n, key) {
        CleanActsAsMap(hash, bins, ops, n, key);
      }
    } else {
      var n: nat :| n < |ops| && Drops(hash, AppliedAll(hash, bins, ops[..n]), ops[n]);
      var key := DropShows(hash, bins, ops, n);
      assert !ActsAsMap(hash, bins, ops) by {
        assert MapAt(hash, bins, ops, n, key) ==> !MapAt(hash, bins, ops, n + 1, key);
      }
    }
  }

  /** After any sequence of adds, looking a key up gives the last value added under it. */
  lemma GetReturnsLastAdd(hash: string -> nat, bins: seq<Bin>, adds: seq<Op>, key: string)
    requires TableOk(hash, bins) && forall i :: 0 <= i < |adds| ==> adds[i].AddOp?
    ensures TableOk(hash, AppliedAll(hash, bins, adds))
    ensures TableLookup(hash, AppliedAll(hash, bins, adds), key) == LastWrite(adds, key, TableLookup(hash, bins, key))
  {
    ActsAsMapExactly(hash, bins, adds);
    assert CleanRemovals(hash, bins, adds);
    assert adds[..|adds|] == adds;
    assert MapAt(hash, bins, adds, |adds|, key);
  }

  /** The listed keys are exactly the keys that can be looked up, and none is listed twice. */
  lemma KeysListedExactly(hash: string -> nat, bins: seq<Bin>, key: string)
    requires TableOk(hash, bins)
    ensures key in AllKeys(bins) <==> TableLookup(hash, bins, key).Some?
    ensures forall i, j :: 0 <= i < j < |AllKeys(bins)| ==> AllKeys(bins)[i] != AllKeys(bins)[j]
  {
    var b := BinFor(hash, bins, key);
    KeyInSomeBin(bins, key);
    if key in AllKeys(bins) {
      var c :| 0 <= c < |bins| && key in KeysOf(bins[c]);
      var i :| 0 <= i < |bins[c]| && KeysOf(bins[c])[i] == key;
      assert c == b;
      FindUnique(bins[b], key, i);
    }
    if Lookup(bins[b], key).Some? {
      assert KeysOf(bins[b])[Find(bins[b], key)] == key;
    }
    KeysDistinct(hash, bins, |bins|);
    assert bins[..|bins|] == bins;
  }

  lemma {:induction false} KeyInSomeBin(bins: seq<Bin>, key: string)
    ensures key in AllKeys(bins) <==> exists c :: 0 <= c < |bins| && key in KeysOf(bins[c])
  {
    if bins != [] {
      KeyInSomeBin(bins[1..], key);
      if c :| 0 <= c < |bins| && key in KeysOf(bins[c]) && c > 0 {
        assert bins[1..][c - 1] == bins[c];
      }
      if c :| 0 <= c < |bins[1..]| && key in KeysOf(bins[1..][c]) {
        assert bins[c + 1] == bins[1..][c];
      }
    }
  }

  lemma {:induction false} KeysDistinct(hash: string -> nat, bins: seq<Bin>, n: nat)
    requires TableOk(hash, bins) && n <= |bins|
    ensures forall i, j :: 0 <= i < j < |AllKeys(bins[..n])| ==> AllKeys(bins[..n])[i] != AllKeys(bins[..n])[j]
  {
    if n > 0 {
      KeysDistinct(hash, bins, n - 1);
      var front, last := AllKeys(bins[..n - 1]), KeysOf(bins[n - 1]);
      assert bins[..n] == bins[..n - 1] + [bins[n - 1]];
      AllKeysSnoc(bins[..n - 1], bins[n - 1]);
      forall k: string | k in front ensures k !in last {
        KeyInSomeBin(bins[..n - 1], k);
        var c :| 0 <= c < n - 1 && k in KeysOf(bins[..n - 1][c]);
        var i :| 0 <= i < |bins[c]| && KeysOf(bins[c])[i] == k;
        assert hash(k) % |bins| == c;
      }
      forall i, j | 0 <= i < j < |front + last| ensures (front + last)[i] != (front + last)[j] {
        if i < |front| <= j {
          assert front[i] in front;
        }
      }
    }
  }
}
