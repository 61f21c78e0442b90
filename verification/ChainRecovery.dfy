/** Rebuilding the chain of block hashes from an unordered directory of block files. */
module ChainRecovery {

  /** A block file as the recovery reads it: its name and the prev_hash in its header. */
  datatype Entry = Entry(hash: string, prev: string)

  function Last(chain: seq<string>): string
    requires chain != []
  {
    chain[|chain| - 1]
  }

  /** The first entry that extends the given tail, or the length of the list. */
  function FindNext(rest: seq<Entry>, tail: string): (i: nat)
    ensures i <= |rest|
    ensures i < |rest| ==> rest[i].prev == tail
    ensures forall j :: 0 <= j < i ==> rest[j].prev != tail
  {
    if rest == [] then 0 else if rest[0].prev == tail then 0 else 1 + FindNext(rest[1..], tail)
  }

  function RemoveAt(rest: seq<Entry>, i: nat): seq<Entry>
    requires i < |rest|
  {
    rest[..i] + rest[i + 1..]
  }

  datatype Recovery = Recovery(chain: seq<string>, rest: seq<Entry>)

  /** Keep appending the first entry that extends the tail until none does. */
  function Grow(chain: seq<string>, rest: seq<Entry>): Recovery
    requires chain != []
    decreases |rest|
  {
    var i := FindNext(rest, Last(chain));
    if i == |rest| then Recovery(chain, rest) else Grow(chain + [rest[i].hash], RemoveAt(rest, i))
  }

  /** The entries other than the genesis file. */
  function WithoutGenesis(listing: seq<Entry>, genesis: string): seq<Entry> {
    if listing == [] then []
    else
      var e := listing[|listing| - 1];
      WithoutGenesis(listing[..|listing| - 1], genesis) + (if e.hash == genesis then [] else [e])
  }

  function Recover(listing: seq<Entry>, genesis: string): Recovery {
    Grow([genesis], WithoutGenesis(listing, genesis))
  }

  /** The entries a chain stands for: each hash after the first with its predecessor. */
  function Links(chain: seq<string>): seq<Entry> {
    if |chain| <= 1 then [] else Links(chain[..|chain| - 1]) + [Entry(chain[|chain| - 1], chain[|chain| - 2])]
  }

  lemma {:induction false} LinkAt(chain: seq<string>, k: nat)
    ensures |Links(chain)| == if chain == [] then 0 else |chain| - 1
    ensures 0 < k < |chain| ==> Links(chain)[k - 1] == Entry(chain[k], chain[k - 1])
  {
    if |chain| > 1 {
      LinkAt(chain[..|chain| - 1], if k < |chain| - 1 then k else 0);
    }
  }

  lemma MultisetRemoveAt(rest: seq<Entry>, i: nat)
    requires i < |rest|
    ensures multiset(rest) == multiset(RemoveAt(rest, i)) + multiset{rest[i]}
  {
    assert rest == rest[..i] + [rest[i]] + rest[i + 1..];
  }

  /** Whatever files there are: the chain only grows, every link it uses is a file, files are neither
      lost nor invented, and no file left over extends the final tail. */
  lemma {:induction false} GrowAccounts(chain: seq<string>, rest: seq<Entry>)
    requires chain != []
    ensures var r := Grow(chain, rest);
            && chain <= r.chain
            && multiset(Links(r.chain)) + multiset(r.rest) == multiset(Links(chain)) + multiset(rest)
            && forall e :: e in r.rest ==> e.prev != Last(r.chain)
    decreases |rest|
  {
    var i := FindNext(rest, Last(chain));
    if i < |rest| {
      var next := chain + [rest[i].hash];
      assert next[..|next| - 1] == chain;
      assert Links(next) == Links(chain) + [rest[i]];
      MultisetRemoveAt(rest, i);
      GrowAccounts(next, RemoveAt(rest, i));
    }
  }

  lemma InSum(a: seq<Entry>, b: seq<Entry>, c: seq<Entry>, e: Entry)
    requires multiset(a) + multiset(b) == multiset(c) && e in a
    ensures e in c
  {
    assert e in multiset(a);
    assert e in multiset(c);
  }

  /** ReadBlockChainHash on arbitrary files, forks and strays included. */
  lemma RecoverAccounts(listing: seq<Entry>, genesis: string)
    ensures var r := Recover(listing, genesis);
            && r.chain != [] && r.chain[0] == genesis
            && (forall k :: 0 < k < |r.chain| ==> Entry(r.chain[k], r.chain[k - 1]) in WithoutGenesis(listing, genesis))
            && multiset(Links(r.chain)) + multiset(r.rest) == multiset(WithoutGenesis(listing, genesis))
            && forall e :: e in r.rest ==> e.prev != Last(r.chain)
  {
    var r, files := Recover(listing, genesis), WithoutGenesis(listing, genesis);
    GrowAccounts([genesis], files);
    assert [genesis] <= r.chain;
    forall k | 0 < k < |r.chain| ensures Entry(r.chain[k], r.chain[k - 1]) in files {
      LinkAt(r.chain, k);
      InSum(Links(r.chain), r.rest, files, Links(r.chain)[k - 1]);
    }
  }

  ghost predicate Distinct(chain: seq<string>) {
    forall i, j :: 0 <= i < j < |chain| ==> chain[i] != chain[j]
  }

  lemma LinkOf(chain: seq<string>, e: Entry) returns (k: nat)
    requires e in Links(chain)
    ensures 0 < k < |chain| && e == Entry(chain[k], chain[k - 1])
  {
    var i :| 0 <= i < |Links(chain)| && Links(chain)[i] == e;
    LinkAt(chain, 0);
    k := i + 1;
    LinkAt(chain, k);
  }

  /** A path along the links of a chain of distinct hashes, from its first hash, is a prefix of it. */
  lemma {:induction false} PathIsPrefix(chain: seq<string>, path: seq<string>)
    requires Distinct(chain) && chain != [] && path != [] && path[0] == chain[0]
    requires forall k :: 0 < k < |path| ==> Entry(path[k], path[k - 1]) in Links(chain)
    ensures path <= chain
  {
    if |path| > 1 {
      var n := |path| - 1;
      PathIsPrefix(chain, path[..n]);
      assert Entry(path[n], path[n - 1]) in Links(chain);
      var k := LinkOf(chain, Entry(path[n], path[n - 1]));
      assert path[..n] <= chain && path[n - 1] == chain[n - 1];
      assert k == n;
      assert path == path[..n] + [path[n]] && chain[..n + 1] == chain[..n] + [chain[n]];
    }
  }

  /** The links of a chain are those of a prefix and the remaining ones. */
  lemma {:induction false} LinksSplit(chain: seq<string>, k: nat) returns (more: seq<Entry>)
    requires 0 < k <= |chain|
    ensures Links(chain) == Links(chain[..k]) + more
    ensures k < |chain| ==> Entry(chain[k], chain[k - 1]) in more
    ensures k == |chain| ==> more == []
    decreases |chain|
  {
    if k == |chain| {
      assert chain[..k] == chain;
      return [];
    }
    var n := |chain| - 1;
    assert chain[..n][..k] == chain[..k];
    var m := LinksSplit(chain[..n], k);
    more := m + [Entry(chain[n], chain[n - 1])];
  }

  lemma Cancel(a: seq<Entry>, b: seq<Entry>, c: seq<Entry>)
    requires multiset(a) + multiset(b) == multiset(a + c)
    ensures multiset(b) == multiset(c) && (c == [] ==> b == [])
  {
    assert multiset(a + c) == multiset(a) + multiset(c);
    forall e ensures multiset(b)[e] == multiset(c)[e] {
      assert (multiset(a) + multiset(b))[e] == (multiset(a) + multiset(c))[e];
    }
    assert |multiset(b)| == |b|;
  }

  /** What is left over after consuming a prefix of a chain is the rest of the chain. */
  lemma LeftoverOfPrefix(chain: seq<string>, k: nat, rest: seq<Entry>)
    requires 0 < k <= |chain|
    requires multiset(Links(chain[..k])) + multiset(rest) == multiset(Links(chain))
    ensures k < |chain| ==> Entry(chain[k], chain[k - 1]) in rest
    ensures k == |chain| ==> rest == []
  {
    var more := LinksSplit(chain, k);
    Cancel(Links(chain[..k]), rest, more);
    if k < |chain| {
      InSum(more, [], rest, Entry(chain[k], chain[k - 1]));
    }
  }

  /** Whatever recovery finds among the files of a chain is a prefix of it. */
  lemma RecoveredIsPrefix(chain: seq<string>, listing: seq<Entry>)
    requires chain != [] && Distinct(chain)
    requires multiset(WithoutGenesis(listing, chain[0])) == multiset(Links(chain))
    ensures 0 < |Recover(listing, chain[0]).chain| && Recover(listing, chain[0]).chain <= chain
  {
    var r := Recover(listing, chain[0]);
    RecoverAccounts(listing, chain[0]);
    forall k | 0 < k < |r.chain| ensures Entry(r.chain[k], r.chain[k - 1]) in Links(chain) {
      InSum(WithoutGenesis(listing, chain[0]), [], Links(chain), Entry(r.chain[k], r.chain[k - 1]));
    }
    PathIsPrefix(chain, r.chain);
  }

  /** A prefix that no left-over entry extends is the whole chain. */
  lemma NothingLeft(chain: seq<string>, path: seq<string>, rest: seq<Entry>)
    requires path != [] && path <= chain
    requires multiset(Links(path)) + multiset(rest) == multiset(Links(chain))
    requires forall e :: e in rest ==> e.prev != Last(path)
    ensures path == chain && rest == []
  {
    var k := |path|;
    assert path == chain[..k];
    LeftoverOfPrefix(chain, k, rest);
  }

  /** Recovery round trip: the files of a chain of distinct hashes, listed in any order, with or
      without the genesis file, give that chain back. */
  lemma RecoverRoundTrip(chain: seq<string>, listing: seq<Entry>)
    requires chain != [] && Distinct(chain)
    requires multiset(WithoutGenesis(listing, chain[0])) == multiset(Links(chain))
    ensures Recover(listing, chain[0]) == Recovery(chain, [])
  {
    var r := Recover(listing, chain[0]);
    RecoveredIsPrefix(chain, listing);
    RecoverAccounts(listing, chain[0]);
    NothingLeft(chain, r.chain, r.rest);
  }

  lemma {:induction false} WithoutGenesisMembers(listing: seq<Entry>, genesis: string, e: Entry)
    ensures multiset(WithoutGenesis(listing, genesis))[e] == if e.hash == genesis then 0 else multiset(listing)[e]
  {
    if listing != [] {
      var pre, last := listing[..|listing| - 1], listing[|listing| - 1];
      WithoutGenesisMembers(pre, genesis, e);
      assert listing == pre + [last];
      assert multiset(listing)[e] == multiset(pre)[e] + (if e == last then 1 else 0);
      if last.hash == genesis {
        assert WithoutGenesis(listing, genesis) == WithoutGenesis(pre, genesis);
      } else {
        assert WithoutGenesis(listing, genesis) == WithoutGenesis(pre, genesis) + [last];
      }
    }
  }
}
