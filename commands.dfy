/** The eleven commands of the dictionary program. Each takes its argument
    tokens (the forward list of the source, here a sequence) and the
    dictionary manager, and returns the text it writes to the output stream.
    The walk over one dictionary's search tree runs in ascending word order;
    it is modelled by `Listing`, the same walk over the dictionary's meaning. */
module Commands {
  import opened Wrappers
  import opened Ordering
  import opened Decimal
  import opened Dictionaries
  import opened HashNode
  import opened HashTable

  type Args = seq<string>

  /** A word with its frequency: `std::pair<std::string, int>`. */
  type Entry = (string, int)

  const Invalid: string := "INVALID COMMAND\n"
  const DictNotFound: string := "DICT NOT FOUND\n"
  const EmptyDict: string := "EMPTY DICT\n"
  const DictExists: string := "DICT EXISTS\n"
  const NotFound: string := "NOT FOUND\n"
  const WordNotFound: string := "WORD NOT FOUND\n"

  // ---------------------------------------------------------------------
  // The walk over a dictionary

  /** The entries of `d` for `words`, in that order. */
  function Pairs(d: Dict, words: seq<string>): seq<Entry>
    requires forall w :: w in words ==> w in d
  {
    seq(|words|, i requires 0 <= i < |words| => (words[i], d[words[i]]))
  }

  /** Entries compared by their words only. */
  predicate WordLess(a: Entry, b: Entry)
  {
    StrLess(a.0, b.0)
  }

  /** The entries of a dictionary in the order `cbegin()`..`cend()` of its
      tree yields them: ascending by word. */
  ghost function Listing(d: Dict): seq<Entry>
  {
    StrLessIsStrictTotal();
    AscendingFacts(d.Keys, StrLess);
    Pairs(d, Ascending(d.Keys, StrLess))
  }

  /** The listing holds every entry of the dictionary once, and nothing
      else, in strictly ascending word order. */
  lemma ListingFacts(d: Dict)
    ensures |Listing(d)| == |d|
    ensures SortedBy(Listing(d), WordLess) && Distinct(Listing(d))
    ensures forall e :: e in Listing(d) <==> e.0 in d && d[e.0] == e.1
  {
    StrLessIsStrictTotal();
    AscendingFacts(d.Keys, StrLess);
    var words := Ascending(d.Keys, StrLess);
    var es := Listing(d);
    assert |d.Keys| == |d|;
    forall e: Entry | e.0 in d && d[e.0] == e.1
      ensures e in es
    {
      assert e.0 in words;
      var k :| 0 <= k < |words| && words[k] == e.0;
      assert es[k] == e;
    }
  }

  /** The loop `for (dit = dict->cbegin(); dit != dict->cend(); ++dit)`
      collecting each entry. */
  method Walk(d: Dict) returns (es: seq<Entry>)
    ensures es == Listing(d)
  {
    StrLessIsStrictTotal();
    var words := SetToSorted(d.Keys, StrLess);
    es := [];
    for i := 0 to |words|
      invariant |es| == i
      invariant forall k :: 0 <= k < i ==> es[k] == (words[k], d[words[k]])
    {
      es := es + [(words[i], d[words[i]])];
    }
    assert es == Pairs(d, words);
  }

  // ---------------------------------------------------------------------
  // Output text

  /** `os << word << ":" << freq`. */
  function Show(e: Entry): string
  {
    e.0 + ":" + IntToString(e.1)
  }

  /** The entries separated by single spaces (the `first` flag loops). */
  function Joined(es: seq<Entry>): string
    decreases |es|
  {
    if es == [] then ""
    else if |es| == 1 then Show(es[0])
    else Joined(es[..|es| - 1]) + " " + Show(es[|es| - 1])
  }

  /** Each entry followed by a space (the `top` and `bot` loops). */
  function Trailed(es: seq<Entry>): string
    decreases |es|
  {
    if es == [] then "" else Trailed(es[..|es| - 1]) + Show(es[|es| - 1]) + " "
  }

  /** The two layouts differ only in the final space: `dump` writes
      `Joined` and then " \n", so its line equals the `top` layout. */
  lemma {:induction false} JoinedThenSpace(es: seq<Entry>)
    requires es != []
    ensures Joined(es) + " " == Trailed(es)
    decreases |es|
  {
    if |es| > 1 {
      JoinedThenSpace(es[..|es| - 1]);
    } else {
      assert es[..0] == [];
    }
  }

  lemma JoinedStep(es: seq<Entry>, i: nat)
    requires 0 < i < |es|
    ensures Joined(es[..i + 1]) == Joined(es[..i]) + " " + Show(es[i])
  {
    assert es[..i + 1][..i] == es[..i];
  }

  /** The dump loop: entries joined with single spaces. */
  method JoinAll(es: seq<Entry>) returns (text: string)
    ensures text == Joined(es)
  {
    text := "";
    var first := true;
    for i := 0 to |es|
      invariant text == Joined(es[..i])
      invariant first == (i == 0)
    {
      if !first {
        JoinedStep(es, i);
        text := text + " ";
      }
      text := text + Show(es[i]);
      first := false;
    }
    assert es[..|es|] == es;
  }

  // ---------------------------------------------------------------------
  // create, add, increment, search, delete

  /** create NAME */
  method Create(args: Args, dm: DictionaryManager) returns (out: string)
    modifies dm
    ensures |args| != 1 ==> out == Invalid && dm.dicts == old(dm.dicts)
    ensures |args| == 1 ==> dm.dicts == Created(old(dm.dicts), args[0])
    ensures |args| == 1 && args[0] !in old(dm.dicts) ==> out == "OK: Dictionary '" + args[0] + "' created\n"
    ensures |args| == 1 && args[0] in old(dm.dicts) ==> out == DictExists
  {
    if |args| != 1 {
      return Invalid;
    }
    var name := args[0];
    var created := dm.CreateDict(name);
    if created {
      out := "OK: Dictionary '" + name + "' created\n";
    } else {
      out := DictExists;
    }
  }

  /** `s.substr(0, n)`: the first `n` characters, or all of a shorter `s`. */
  function Front(s: string, n: nat): (r: string)
    ensures |r| == if n < |s| then n else |s|
    ensures r <= s
  {
    if n < |s| then s[..n] else s
  }

  /** The amount an `add` or `increment` carries: 1 with two arguments;
      otherwise the third must start with `prefix` and `stoi` must read the
      rest of it. */
  function Amount(args: Args, prefix: string): Option<int>
    requires |args| == 2 || |args| == 3
  {
    if |args| == 2 then Some(1)
    else if Front(args[2], |prefix|) != prefix then None
    else match Stoi(args[2][|prefix|..])
      case Ok(v) => Some(v)
      case Throws(_) => None
  }

  /** The amount written after the prefix is the amount read, for every
      `int`; the default is 1; a third token without the prefix is refused;
      and the two prefixes accept the same numbers. */
  lemma AmountFacts(name: string, word: string, prefix: string, n: int)
    requires INT_MIN <= n <= INT_MAX
    ensures Amount([name, word], prefix) == Some(1)
    ensures Amount([name, word, prefix + IntToString(n)], prefix) == Some(n)
    ensures forall t: string :: Front(t, |prefix|) != prefix ==> Amount([name, word, t], prefix) == None
    ensures forall t: string :: Amount([name, word, "freq:" + t], "freq:") == Amount([name, word, "by:" + t], "by:")
  {
    AmountOfWritten(name, word, prefix, n);
    forall t: string
      ensures Amount([name, word, "freq:" + t], "freq:") == Amount([name, word, "by:" + t], "by:")
    {
      AmountAfterPrefix(name, word, "freq:", t);
      AmountAfterPrefix(name, word, "by:", t);
    }
  }

  lemma AmountOfWritten(name: string, word: string, prefix: string, n: int)
    requires INT_MIN <= n <= INT_MAX
    ensures Amount([name, word, prefix + IntToString(n)], prefix) == Some(n)
  {
    var t := prefix + IntToString(n);
    AmountAfterPrefix(name, word, prefix, IntToString(n));
    StoiOfWritten(n, []);
    assert IntToString(n) + [] == IntToString(n);
  }

  /** Behind its prefix, the amount is what `stoi` reads of the rest. */
  lemma AmountAfterPrefix(name: string, word: string, prefix: string, t: string)
    ensures Amount([name, word, prefix + t], prefix) == if Stoi(t).Ok? then Some(Stoi(t).value) else None
  {
    assert Front(prefix + t, |prefix|) == prefix;
    assert (prefix + t)[|prefix|..] == t;
  }

  /** add DICT WORD [freq:N] and increment DICT WORD [by:N]: the same
      validation and the same `addWord`, with their own prefix and reply. */
  method Adjust(args: Args, dm: DictionaryManager, prefix: string, verb: string, link: string) returns (out: string)
    modifies dm
    ensures |args| != 2 && |args| != 3 ==> out == Invalid && dm.dicts == old(dm.dicts)
    ensures (|args| == 2 || |args| == 3) && Amount(args, prefix).None? ==> out == Invalid && dm.dicts == old(dm.dicts)
    ensures (|args| == 2 || |args| == 3) && Amount(args, prefix).Some? && args[0] !in old(dm.dicts) ==>
              out == DictNotFound && dm.dicts == old(dm.dicts)
    ensures (|args| == 2 || |args| == 3) && Amount(args, prefix).Some? && args[0] in old(dm.dicts) ==>
              out == "OK: " + verb + " '" + args[1] + "' " + link + IntToString(Amount(args, prefix).value) + "\n"
              && dm.dicts == WithWord(old(dm.dicts), args[0], args[1], Amount(args, prefix).value)
  {
    if |args| != 2 && |args| != 3 {
      return Invalid;
    }
    var name := args[0];
    var word := args[1];
    var amount := 1;
    if |args| == 3 {
      var part := args[2];
      if Front(part, |prefix|) != prefix {
        return Invalid;
      }
      var parsed := Stoi(part[|prefix|..]);
      if parsed.Throws? {
        return Invalid;
      }
      amount := parsed.value;
    }
    var ok := dm.AddWord(name, word, amount);
    if ok {
      out := "OK: " + verb + " '" + word + "' " + link + IntToString(amount) + "\n";
    } else {
      out := DictNotFound;
    }
  }

  /** search DICT WORD */
  method Search(args: Args, dm: DictionaryManager) returns (out: string)
    ensures |args| != 2 ==> out == Invalid
    ensures |args| == 2 && args[0] !in dm.dicts ==> out == DictNotFound
    ensures |args| == 2 && args[0] in dm.dicts && args[1] !in dm.dicts[args[0]] ==> out == NotFound
    ensures |args| == 2 && args[0] in dm.dicts && args[1] in dm.dicts[args[0]] ==>
              out == "FOUND: freq=" + IntToString(dm.dicts[args[0]][args[1]]) + "\n"
  {
    if |args| != 2 {
      return Invalid;
    }
    var dict := dm.GetDict(args[0]);
    if dict.None? {
      return DictNotFound;
    }
    if args[1] !in dict.value {
      out := NotFound;
    } else {
      out := "FOUND: freq=" + IntToString(dict.value[args[1]]) + "\n";
    }
  }

  /** delete DICT WORD: one reply for an unknown dictionary and for an
      unknown word alike. */
  method Delete(args: Args, dm: DictionaryManager) returns (out: string)
    modifies dm
    ensures |args| != 2 ==> out == Invalid && dm.dicts == old(dm.dicts)
    ensures |args| == 2 && !(args[0] in old(dm.dicts) && args[1] in old(dm.dicts)[args[0]]) ==>
              out == WordNotFound && dm.dicts == old(dm.dicts)
    ensures |args| == 2 && args[0] in old(dm.dicts) && args[1] in old(dm.dicts)[args[0]] ==>
              out == "OK: Deleted '" + args[1] + "'\n" && dm.dicts == WithoutWord(old(dm.dicts), args[0], args[1])
  {
    if |args| != 2 {
      return Invalid;
    }
    var ok := dm.RemoveWord(args[0], args[1]);
    if ok {
      out := "OK: Deleted '" + args[1] + "'\n";
    } else {
      out := WordNotFound;
    }
  }

  // ---------------------------------------------------------------------
  // dump

  /** dump DICT: every entry in ascending word order. */
  method Dump(args: Args, dm: DictionaryManager) returns (out: string)
    ensures |args| != 1 ==> out == Invalid
    ensures |args| == 1 && args[0] !in dm.dicts ==> out == DictNotFound
    ensures |args| == 1 && args[0] in dm.dicts && dm.dicts[args[0]] == map[] ==> out == EmptyDict
    ensures |args| == 1 && args[0] in dm.dicts && dm.dicts[args[0]] != map[] ==>
              out == "dump: " + Joined(Listing(dm.dicts[args[0]])) + " \n"
  {
    if |args| != 1 {
      return Invalid;
    }
    var dict := dm.GetDict(args[0]);
    if dict.None? {
      return DictNotFound;
    }
    if dict.value == map[] {
      return EmptyDict;
    }
    var es := Walk(dict.value);
    var text := JoinAll(es);
    out := "dump: " + text + " \n";
  }

  // ---------------------------------------------------------------------
  // top and bot

  /** The comparator of `top`: higher frequency first, then ascending word. */
  predicate TopLess(a: Entry, b: Entry)
  {
    if a.1 != b.1 then a.1 > b.1 else StrLess(a.0, b.0)
  }

  /** The comparator of `bot`: lower frequency first, then ascending word. */
  predicate BotLess(a: Entry, b: Entry)
  {
    if a.1 != b.1 then a.1 < b.1 else StrLess(a.0, b.0)
  }

  lemma TopLessIsStrictTotal()
    ensures StrictTotalOrder(TopLess)
  {
    StrLessIsStrictTotal();
    assert forall a, b, c :: TopLess(a, b) && TopLess(b, c) ==> TopLess(a, c);
    assert forall a, b: Entry :: a != b ==> TopLess(a, b) || TopLess(b, a);
  }

  lemma BotLessIsStrictTotal()
    ensures StrictTotalOrder(BotLess)
  {
    StrLessIsStrictTotal();
    assert forall a, b, c :: BotLess(a, b) && BotLess(b, c) ==> BotLess(a, c);
    assert forall a, b: Entry :: a != b ==> BotLess(a, b) || BotLess(b, a);
  }

  /** The first `n` elements, or all of a shorter sequence. */
  function Take<T>(s: seq<T>, n: nat): (r: seq<T>)
    ensures |r| == if n < |s| then n else |s|
    ensures forall i :: 0 <= i < |r| ==> r[i] == s[i]
  {
    if n < |s| then s[..n] else s
  }

  /** The first `n` entries of the dictionary in the order `less` ranks
      them. */
  ghost function Ranking(d: Dict, n: nat, less: (Entry, Entry) -> bool): seq<Entry>
  {
    Take(SortBy(Listing(d), less), n)
  }

  /** What `top n` and `bot n` select, for a strict total comparator: at
      most `n` entries of the dictionary, `n` of them when it has that many,
      ranked by `less`, each outranking every entry left out. */
  lemma RankingFacts(d: Dict, n: nat, less: (Entry, Entry) -> bool)
    requires StrictTotalOrder(less)
    ensures |Ranking(d, n, less)| == if n < |d| then n else |d|
    ensures SortedBy(Ranking(d, n, less), less)
    ensures forall e :: e in Ranking(d, n, less) ==> e.0 in d && d[e.0] == e.1
    ensures forall e, w :: e in Ranking(d, n, less) && w in d && (w, d[w]) !in Ranking(d, n, less) ==>
              less(e, (w, d[w]))
  {
    ListingFacts(d);
    var all := SortBy(Listing(d), less);
    SortByIsSorted(Listing(d), less);
    var sel := Ranking(d, n, less);
    assert sel == all[..|sel|];
    PrefixOutranks(all, |sel|, less);
    forall w | w in d
      ensures (w, d[w]) in all
    {
      assert (w, d[w]) in Listing(d);
    }
  }

  /** In a sequence sorted by `less`, each element of a prefix is below each
      element after it. */
  lemma PrefixOutranks<T>(s: seq<T>, k: nat, less: (T, T) -> bool)
    requires SortedBy(s, less) && k <= |s|
    ensures SortedBy(s[..k], less)
    ensures forall e, x :: e in s[..k] && x in s && x !in s[..k] ==> less(e, x)
  {
    PrefixMembers(s, k);
    forall e, x | e in s[..k] && x in s && x !in s[..k]
      ensures less(e, x)
    {
      var i :| 0 <= i < k && s[..k][i] == e;
      var j :| 0 <= j < |s| && s[j] == x;
      assert s[i] == e;
    }
  }

  /** Each of the first `k` elements is in the prefix of length `k`. */
  lemma PrefixMembers<T>(s: seq<T>, k: nat)
    requires k <= |s|
    ensures forall j :: 0 <= j < k ==> s[j] in s[..k]
  {
    forall j | 0 <= j < k
      ensures s[j] in s[..k]
    {
      assert s[..k][j] == s[j];
    }
  }

  /** The output loop of `top` and `bot`: at most `n` entries, each
      followed by a space. */
  method TrailFirst(es: seq<Entry>, n: nat) returns (text: string)
    ensures text == Trailed(Take(es, n))
  {
    text := "";
    var count: nat := 0;
    while count < |es|
      invariant count <= |es| && count <= n
      invariant text == Trailed(es[..count])
    {
      if count >= n {
        break;
      }
      assert es[..count + 1][..count] == es[..count];
      text := text + Show(es[count]) + " ";
      count := count + 1;
    }
    assert es[..|es|] == es;
  }

  /** top DICT N and bot DICT N: `title` is the command's name and `less`
      its comparator; `N` is read by `stoul`. */
  method Ranked(args: Args, dm: DictionaryManager, title: string, less: (Entry, Entry) -> bool) returns (out: string)
    ensures |args| != 2 ==> out == Invalid
    ensures |args| == 2 && Stoul(args[1]).Throws? ==> out == Invalid
    ensures |args| == 2 && Stoul(args[1]).Ok? && args[0] !in dm.dicts ==> out == DictNotFound
    ensures |args| == 2 && Stoul(args[1]).Ok? && args[0] in dm.dicts && dm.dicts[args[0]] == map[] ==>
              out == EmptyDict
    ensures |args| == 2 && Stoul(args[1]).Ok? && args[0] in dm.dicts && dm.dicts[args[0]] != map[] ==>
              out == title + " " + NatToString(Stoul(args[1]).value) + ": "
                     + Trailed(Ranking(dm.dicts[args[0]], Stoul(args[1]).value, less)) + "\n"
  {
    if |args| != 2 {
      return Invalid;
    }
    var parsed := Stoul(args[1]);
    if parsed.Throws? {
      return Invalid;
    }
    var n := parsed.value;
    var dict := dm.GetDict(args[0]);
    if dict.None? {
      return DictNotFound;
    }
    if dict.value == map[] {
      return EmptyDict;
    }
    var es := Walk(dict.value);
    var ranked := SortBy(es, less);
    var text := TrailFirst(ranked, n);
    out := title + " " + NatToString(n) + ": " + text + "\n";
  }

  // ---------------------------------------------------------------------
  // minfreq and maxfreq

  /** The filter of `minfreq m` (`freq >= m`) and, when `strict`, of
      `maxfreq m` (`freq > m`). */
  predicate Admits(strict: bool, m: int, freq: int)
  {
    if strict then freq > m else freq >= m
  }

  /** The entries the filter admits, in their order. */
  function Kept(es: seq<Entry>, strict: bool, m: int): seq<Entry>
    decreases |es|
  {
    if es == [] then []
    else Kept(es[..|es| - 1], strict, m) + (if Admits(strict, m, es[|es| - 1].1) then [es[|es| - 1]] else [])
  }

  lemma {:induction false} KeptMembers(es: seq<Entry>, strict: bool, m: int)
    ensures forall e :: e in Kept(es, strict, m) <==> e in es && Admits(strict, m, e.1)
    decreases |es|
  {
    if es != [] {
      var init := es[..|es| - 1];
      KeptMembers(init, strict, m);
      assert es == init + [es[|es| - 1]];
    }
  }

  lemma {:induction false} KeptSorted(es: seq<Entry>, strict: bool, m: int)
    requires SortedBy(es, WordLess)
    ensures SortedBy(Kept(es, strict, m), WordLess)
    decreases |es|
  {
    if es != [] {
      var init := es[..|es| - 1];
      var last := es[|es| - 1];
      KeptSorted(init, strict, m);
      KeptMembers(init, strict, m);
      var k := Kept(init, strict, m);
      if Admits(strict, m, last.1) {
        var r := k + [last];
        forall i, j | 0 <= i < j < |r|
          ensures WordLess(r[i], r[j])
        {
          if j == |k| {
            assert r[i] in init;
            var a :| 0 <= a < |init| && init[a] == r[i];
            assert es[a] == r[i];
          } else {
            assert r[i] == k[i] && r[j] == k[j];
          }
        }
      }
    }
  }

  /** What `minfreq` and `maxfreq` list: exactly the dictionary's entries
      the filter admits, in ascending word order. */
  lemma FilterFacts(d: Dict, strict: bool, m: int)
    ensures forall e :: e in Kept(Listing(d), strict, m) <==> e.0 in d && d[e.0] == e.1 && Admits(strict, m, e.1)
    ensures SortedBy(Kept(Listing(d), strict, m), WordLess)
  {
    ListingFacts(d);
    KeptMembers(Listing(d), strict, m);
    KeptSorted(Listing(d), strict, m);
  }

  lemma JoinedKeptStep(es: seq<Entry>, strict: bool, m: int, i: nat)
    requires i < |es|
    ensures Kept(es[..i + 1], strict, m) ==
              Kept(es[..i], strict, m) + (if Admits(strict, m, es[i].1) then [es[i]] else [])
  {
    assert es[..i + 1][..i] == es[..i];
  }

  lemma JoinedAppend(k: seq<Entry>, e: Entry)
    ensures Joined(k + [e]) == if k == [] then Show(e) else Joined(k) + " " + Show(e)
  {
    assert (k + [e])[..|k|] == k;
  }

  /** The `minfreq` and `maxfreq` loop: the admitted entries joined with
      single spaces. */
  method JoinKept(es: seq<Entry>, strict: bool, m: int) returns (text: string)
    ensures text == Joined(Kept(es, strict, m))
  {
    text := "";
    var first := true;
    for i := 0 to |es|
      invariant text == Joined(Kept(es[..i], strict, m))
      invariant first == (Kept(es[..i], strict, m) == [])
    {
      JoinedKeptStep(es, strict, m, i);
      if Admits(strict, m, es[i].1) {
        JoinedAppend(Kept(es[..i], strict, m), es[i]);
        if !first {
          text := text + " ";
        }
        text := text + Show(es[i]);
        first := false;
      } else {
        assert Kept(es[..i], strict, m) + [] == Kept(es[..i], strict, m);
      }
    }
    assert es[..|es|] == es;
  }

  /** minfreq DICT m and maxfreq DICT m: `title` is the command's name; an
      empty dictionary is not refused. */
  method Threshold(args: Args, dm: DictionaryManager, title: string, strict: bool) returns (out: string)
    ensures |args| != 2 ==> out == Invalid
    ensures |args| == 2 && Stoi(args[1]).Throws? ==> out == Invalid
    ensures |args| == 2 && Stoi(args[1]).Ok? && args[0] !in dm.dicts ==> out == DictNotFound
    ensures |args| == 2 && Stoi(args[1]).Ok? && args[0] in dm.dicts ==>
              out == title + " " + IntToString(Stoi(args[1]).value) + ": "
                     + Joined(Kept(Listing(dm.dicts[args[0]]), strict, Stoi(args[1]).value)) + " \n"
  {
    if |args| != 2 {
      return Invalid;
    }
    var parsed := Stoi(args[1]);
    if parsed.Throws? {
      return Invalid;
    }
    var m := parsed.value;
    var dict := dm.GetDict(args[0]);
    if dict.None? {
      return DictNotFound;
    }
    var es := Walk(dict.value);
    var text := JoinKept(es, strict, m);
    out := title + " " + IntToString(m) + ": " + text + " \n";
  }

  // ---------------------------------------------------------------------
  // median

  /** The reply of `median`: a refusal, or the two middle frequencies whose
      mean it prints (the same one twice for an odd count). */
  datatype MedianReply = Refused(text: string) | Middle(lower: int, upper: int)

  function Freqs(es: seq<Entry>): (r: seq<int>)
    ensures |r| == |es|
  {
    seq(|es|, i requires 0 <= i < |es| => es[i].1)
  }

  /** The frequencies of the dictionary, sorted as `std::sort` leaves them. */
  ghost function SortedFreqs(d: Dict): seq<int>
  {
    SortBy(Freqs(Listing(d)), IntLess)
  }

  /** The sorted frequencies are the dictionary's frequencies, each as often
      as it occurs, in non-descending order; the two middle positions split
      them so that none before the lower one is greater and none after the
      upper one is smaller. */
  lemma MedianFacts(d: Dict)
    requires d != map[]
    ensures |SortedFreqs(d)| == |d|
    ensures multiset(SortedFreqs(d)) == multiset(Freqs(Listing(d)))
    ensures forall i, j :: 0 <= i < j < |SortedFreqs(d)| ==> SortedFreqs(d)[i] <= SortedFreqs(d)[j]
    ensures var f := SortedFreqs(d);
            f[(|f| - 1) / 2] <= f[|f| / 2]
            && (forall i :: 0 <= i <= (|f| - 1) / 2 ==> f[i] <= f[(|f| - 1) / 2])
            && (forall i :: |f| / 2 <= i < |f| ==> f[|f| / 2] <= f[i])
  {
    ListingFacts(d);
    assert StrictTotalOrder(IntLess);
    SortByIsNonDescending(Freqs(Listing(d)), IntLess);
  }

  /** The loop filling `freqs`. */
  method CollectFreqs(es: seq<Entry>) returns (fs: seq<int>)
    ensures fs == Freqs(es)
  {
    fs := [];
    for i := 0 to |es|
      invariant |fs| == i
      invariant forall k :: 0 <= k < i ==> fs[k] == es[k].1
    {
      fs := fs + [es[i].1];
    }
  }

  /** median DICT */
  method Median(args: Args, dm: DictionaryManager) returns (r: MedianReply)
    ensures |args| != 1 ==> r == Refused(Invalid)
    ensures |args| == 1 && args[0] !in dm.dicts ==> r == Refused(DictNotFound)
    ensures |args| == 1 && args[0] in dm.dicts && dm.dicts[args[0]] == map[] ==> r == Refused(EmptyDict)
    ensures |args| == 1 && args[0] in dm.dicts && dm.dicts[args[0]] != map[] ==>
              |SortedFreqs(dm.dicts[args[0]])| > 0
              && r == Middle(SortedFreqs(dm.dicts[args[0]])[(|SortedFreqs(dm.dicts[args[0]])| - 1) / 2],
                             SortedFreqs(dm.dicts[args[0]])[|SortedFreqs(dm.dicts[args[0]])| / 2])
  {
    if |args| != 1 {
      return Refused(Invalid);
    }
    var dict := dm.GetDict(args[0]);
    if dict.None? {
      return Refused(DictNotFound);
    }
    if dict.value == map[] {
      return Refused(EmptyDict);
    }
    ListingFacts(dict.value);
    var es := Walk(dict.value);
    var fs := CollectFreqs(es);
    var sorted := SortBy(fs, IntLess);
    var size := |sorted|;
    if size % 2 == 1 {
      r := Middle(sorted[size / 2], sorted[size / 2]);
    } else {
      r := Middle(sorted[size / 2 - 1], sorted[size / 2]);
    }
  }

  // ---------------------------------------------------------------------
  // createCommandMap

  /** The command functions the table stores; `Unset` is the empty
      `std::function` that value-initialised slots hold. */
  datatype Handler =
    | Unset | OnCreate | OnAdd | OnIncrement | OnSearch | OnDelete | OnDump
    | OnTop | OnBot | OnMinFreq | OnMaxFreq | OnMedian

  /** The names createCommandMap registers, with their commands. */
  function Registry(): map<string, Handler>
  {
    map["create" := OnCreate, "add" := OnAdd, "increment" := OnIncrement, "search" := OnSearch,
        "delete" := OnDelete, "dump" := OnDump, "top" := OnTop, "bot" := OnBot,
        "minfreq" := OnMinFreq, "maxfreq" := OnMaxFreq, "median" := OnMedian]
  }

  /** A table that takes one more entry without exceeding its maximum load
      factor still has a slot that is not occupied. */
  lemma RoomLeft(size: nat, num: nat, den: nat, capacity: nat)
    requires 0 < num <= den && (size + 1) * den <= num * capacity
    ensures size < capacity
  {
    assert num * capacity <= den * capacity;
  }

  /** One `insert` of a new name into a default-sized table without
      tombstones that holds fewer than 12 entries: the entry is added in
      place, without growth (13 entries would exceed 3/4 of 16 slots). */
  method Register(t: Table<string, Handler>, name: string, h: Handler, ghost held: map<string, Handler>)
    requires t.Valid() && NoDeleted(t.slots[..]) && t.Contents() == held && name !in held
    requires t.loadNum == 3 && t.loadDen == 4 && t.slots.Length == 16 && t.size < 12
    modifies t, t.slots
    ensures t.Valid() && NoDeleted(t.slots[..])
    ensures t.Contents() == held[name := h]
    ensures t.size == old(t.size) + 1 && t.slots == old(t.slots)
    ensures t.loadNum == 3 && t.loadDen == 4 && t.slots.Length == 16
  {
    RoomLeft(t.size, t.loadNum, t.loadDen, t.slots.Length);
    ghost var before := t.slots[..];
    AbsentKeyLandsOnEmpty(before, t.hash, name);
    RoomMeansPlacementEnds(before, Home(t.hash, name, t.slots.Length), name);
    var it, inserted := t.Insert(name, h);
    PlaceKeepsNoDeleted(before, InsertPos(before, t.hash, name), name, h);
  }

  /** The map holding each pair of `pairs`, a later pair overriding an
      earlier one with the same name. */
  function MapOf(pairs: seq<(string, Handler)>): map<string, Handler>
    decreases |pairs|
  {
    if pairs == [] then map[]
    else MapOf(pairs[..|pairs| - 1])[pairs[|pairs| - 1].0 := pairs[|pairs| - 1].1]
  }

  lemma {:induction false} MapOfKeys(pairs: seq<(string, Handler)>)
    ensures forall k :: k in MapOf(pairs) <==> exists j :: 0 <= j < |pairs| && pairs[j].0 == k
    decreases |pairs|
  {
    if pairs != [] {
      var init := pairs[..|pairs| - 1];
      MapOfKeys(init);
      forall k | exists j :: 0 <= j < |pairs| && pairs[j].0 == k
        ensures k in MapOf(pairs)
      {
        var j :| 0 <= j < |pairs| && pairs[j].0 == k;
        if j < |init| {
          assert init[j].0 == k;
        }
      }
    }
  }

  /** Each call of createCommandMap registers a name not registered
      before it. */
  lemma RegistrationStep(i: nat)
    requires i < |Registrations|
    ensures Registrations[i].0 !in MapOf(Registrations[..i])
    ensures MapOf(Registrations[..i + 1]) == MapOf(Registrations[..i])[Registrations[i].0 := Registrations[i].1]
  {
    var r := Registrations;
    RegistrationsFacts();
    MapOfKeys(r[..i]);
    assert r[..i + 1][..i] == r[..i];
  }

  /** The insert calls of createCommandMap, in order. */
  const Registrations: seq<(string, Handler)> :=
    [("create", OnCreate), ("add", OnAdd), ("increment", OnIncrement), ("search", OnSearch)
     , ("delete", OnDelete), ("dump", OnDump), ("top", OnTop), ("bot", OnBot)
     , ("minfreq", OnMinFreq), ("maxfreq", OnMaxFreq), ("median", OnMedian)]

  /** No name is registered twice, and together the calls register exactly
      the eleven commands of the command file. */
  lemma RegistrationsFacts()
    ensures |Registrations| == 11
    ensures forall i, j :: 0 <= i < j < |Registrations| ==> Registrations[i].0 != Registrations[j].0
    ensures MapOf(Registrations) == Registry()
  {
    var r := Registrations;
    assert r[..0] == [];
    assert MapOf(r[..1]) == map[r[0].0 := r[0].1] by { assert r[..1][..0] == r[..0]; }
    assert MapOf(r[..2]) == MapOf(r[..1])[r[1].0 := r[1].1] by { assert r[..2][..1] == r[..1]; }
    assert MapOf(r[..3]) == MapOf(r[..2])[r[2].0 := r[2].1] by { assert r[..3][..2] == r[..2]; }
    assert MapOf(r[..4]) == MapOf(r[..3])[r[3].0 := r[3].1] by { assert r[..4][..3] == r[..3]; }
    assert MapOf(r[..5]) == MapOf(r[..4])[r[4].0 := r[4].1] by { assert r[..5][..4] == r[..4]; }
    assert MapOf(r[..6]) == MapOf(r[..5])[r[5].0 := r[5].1] by { assert r[..6][..5] == r[..5]; }
    assert MapOf(r[..7]) == MapOf(r[..6])[r[6].0 := r[6].1] by { assert r[..7][..6] == r[..6]; }
    assert MapOf(r[..8]) == MapOf(r[..7])[r[7].0 := r[7].1] by { assert r[..8][..7] == r[..7]; }
    assert MapOf(r[..9]) == MapOf(r[..8])[r[8].0 := r[8].1] by { assert r[..9][..8] == r[..8]; }
    assert MapOf(r[..10]) == MapOf(r[..9])[r[9].0 := r[9].1] by { assert r[..10][..9] == r[..9]; }
    assert MapOf(r[..11]) == MapOf(r[..10])[r[10].0 := r[10].1] by { assert r[..11][..10] == r[..10]; }
    assert r[..11] == r;
  }

  /** createCommandMap: a default table (16 slots, maximum load factor 3/4)
      into which the eleven names are inserted one after the other, in the
      order of the source; eleven entries never trigger growth. */
  method CreateCommandMap(hash: string -> nat) returns (t: Table<string, Handler>)
    ensures fresh(t) && t.Valid() && NoDeleted(t.slots[..])
    ensures t.Contents() == Registry()
    ensures t.size == 11 && t.slots.Length == 16 && t.hash == hash
  {
    t := new Table.Default(hash, "", Unset);
    BlankIsEmpty(16, "", Unset);
    RegistrationsFacts();
    var entries := Registrations;
    for i := 0 to |entries|
      invariant fresh(t) && fresh(t.slots) && t.Valid() && NoDeleted(t.slots[..])
      invariant t.Contents() == MapOf(entries[..i])
      invariant t.size == i && t.loadNum == 3 && t.loadDen == 4 && t.slots.Length == 16 && t.hash == hash
    {
      RegistrationStep(i);
      Register(t, entries[i].0, entries[i].1, MapOf(entries[..i]));
    }
    assert entries[..|entries|] == entries;
  }
}
