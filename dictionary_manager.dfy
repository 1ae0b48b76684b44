/** Named word-frequency dictionaries. Each dictionary maps a word to its
    count; the manager maps dictionary names to dictionaries. The source keeps
    the names in the open-addressing table of `HashTable` and each dictionary
    in the search tree of `SearchTree`; here both are taken through their
    meaning, finite maps. Names are never erased from the table, so its
    tombstone fault cannot arise here. */
module Dictionaries {
  import opened CType
  import opened Wrappers

  type Dict = map<string, int>
  type Dicts = map<string, Dict>

  /** The count of a word: what `operator[]` of the tree yields, the
      value-initialised 0 for an absent word. */
  function Count(d: Dict, word: string): int
  {
    if word in d then d[word] else 0
  }

  // ---------------------------------------------------------------------
  // Word normalisation of loadFromFile

  /** `std::transform(…, ::tolower)`: every character lowered. */
  function Lowered(w: string): (r: string)
    ensures |r| == |w|
    ensures forall i :: 0 <= i < |w| ==> r[i] == ToLower(w[i])
  {
    if w == [] then [] else [ToLower(w[0])] + Lowered(w[1..])
  }

  /** `erase(remove_if(…, !isalpha))`: the letters kept, in order. */
  function Letters(w: string): (r: string)
    ensures |r| <= |w|
    ensures forall i :: 0 <= i < |r| ==> IsAlpha(r[i])
    ensures forall c :: c in r ==> c in w
  {
    if w == [] then []
    else if IsAlpha(w[0]) then [w[0]] + Letters(w[1..])
    else Letters(w[1..])
  }

  /** A word as loadFromFile counts it: lowered, then stripped of every
      character that is not a letter. */
  function Normalise(w: string): string
  {
    Letters(Lowered(w))
  }

  /** A normalised word consists of lower-case letters only, and the two
      passes can be taken in either order. */
  lemma {:induction false} NormaliseFacts(w: string)
    ensures forall i :: 0 <= i < |Normalise(w)| ==> IsLower(Normalise(w)[i])
    ensures Normalise(w) == Lowered(Letters(w))
    ensures |Normalise(w)| <= |w|
  {
    if w != [] {
      NormaliseFacts(w[1..]);
      assert Lowered(w)[1..] == Lowered(w[1..]);
      LettersLower(Lowered(w));
    }
  }

  lemma {:induction false} LettersLower(w: string)
    requires forall i :: 0 <= i < |w| ==> !IsUpper(w[i])
    ensures forall i :: 0 <= i < |Letters(w)| ==> IsLower(Letters(w)[i])
  {
    if w != [] {
      LettersLower(w[1..]);
    }
  }

  /** Normalising twice changes nothing more, and a word that is already
      all lower-case letters is kept as it is. */
  lemma {:induction false} NormaliseIdempotent(w: string)
    ensures Normalise(Normalise(w)) == Normalise(w)
    ensures (forall i :: 0 <= i < |w| ==> IsLower(w[i])) ==> Normalise(w) == w
  {
    NormaliseFacts(w);
    LowerWordsAreFixed(Normalise(w));
    LowerWordsAreFixed(w);
  }

  lemma {:induction false} LowerWordsAreFixed(w: string)
    ensures (forall i :: 0 <= i < |w| ==> IsLower(w[i])) ==> Normalise(w) == w
  {
    if w != [] && (forall i :: 0 <= i < |w| ==> IsLower(w[i])) {
      LowerWordsAreFixed(w[1..]);
      assert Lowered(w)[1..] == Lowered(w[1..]);
    }
  }

  // ---------------------------------------------------------------------
  // Counting the words of a file

  /** The dictionary after counting `words` into `d` in order: every word
      whose normal form is not empty adds 1 to that form's count. */
  function Tally(d: Dict, words: seq<string>): Dict
    decreases |words|
  {
    if words == [] then d
    else
      var w := Normalise(words[|words| - 1]);
      var before := Tally(d, words[..|words| - 1]);
      if w == [] then before else before[w := Count(before, w) + 1]
  }

  /** How many of the words have normal form `w`. */
  function Occurrences(words: seq<string>, w: string): nat
    decreases |words|
  {
    if words == [] then 0
    else Occurrences(words[..|words| - 1], w) + (if Normalise(words[|words| - 1]) == w then 1 else 0)
  }

  /** Counting adds, to each non-empty normal form, the number of words that
      have it, and creates exactly the entries of those forms. */
  lemma {:induction false} TallyCounts(d: Dict, words: seq<string>)
    ensures forall w :: w != [] ==> Count(Tally(d, words), w) == Count(d, w) + Occurrences(words, w)
    ensures forall w :: w in Tally(d, words) <==> w in d || (w != [] && Occurrences(words, w) > 0)
    decreases |words|
  {
    if words != [] {
      TallyCounts(d, words[..|words| - 1]);
    }
  }

  // ---------------------------------------------------------------------
  // The operations on the name → dictionary map

  /** createDict: a new name gets an empty dictionary; an existing
      dictionary is left as it is. */
  function Created(ds: Dicts, name: string): (r: Dicts)
    ensures name in r && r.Keys == ds.Keys + {name}
    ensures name in ds ==> r == ds
    ensures name !in ds ==> r[name] == map[] && forall n :: n in ds ==> r[n] == ds[n]
  {
    if name in ds then ds else ds[name := map[]]
  }

  /** addWord's change: the word's count grows by `freq`, starting from 0. */
  function WithWord(ds: Dicts, name: string, word: string, freq: int): (r: Dicts)
    requires name in ds
    ensures r.Keys == ds.Keys && r[name].Keys == ds[name].Keys + {word}
    ensures Count(r[name], word) == Count(ds[name], word) + freq
    ensures forall w :: w != word ==> Count(r[name], w) == Count(ds[name], w)
    ensures forall n :: n in ds && n != name ==> r[n] == ds[n]
  {
    ds[name := ds[name][word := Count(ds[name], word) + freq]]
  }

  /** removeWord's change: the word leaves the dictionary. */
  function WithoutWord(ds: Dicts, name: string, word: string): (r: Dicts)
    requires name in ds
    ensures r.Keys == ds.Keys && r[name].Keys == ds[name].Keys - {word}
    ensures forall w :: w in r[name] ==> r[name][w] == ds[name][w]
    ensures forall n :: n in ds && n != name ==> r[n] == ds[n]
  {
    ds[name := ds[name] - {word}]
  }

  /** Adding `f` and then `g` to a word is adding `f + g`. */
  lemma AddTwice(ds: Dicts, name: string, word: string, f: int, g: int)
    requires name in ds
    ensures WithWord(WithWord(ds, name, word, f), name, word, g) == WithWord(ds, name, word, f + g)
  {
    var d := ds[name];
    var once := d[word := Count(d, word) + f];
    assert Count(once, word) == Count(d, word) + f;
    assert once[word := Count(once, word) + g] == d[word := Count(d, word) + (f + g)];
  }

  /** Removing a word that was just added leaves what removing it would have
      left; when the word was absent, that is the original dictionary. */
  lemma AddThenRemove(ds: Dicts, name: string, word: string, f: int)
    requires name in ds
    ensures WithoutWord(WithWord(ds, name, word, f), name, word) == WithoutWord(ds, name, word)
    ensures word !in ds[name] ==> WithoutWord(WithWord(ds, name, word, f), name, word) == ds
  {
    assert WithWord(ds, name, word, f)[name] - {word} == ds[name] - {word};
    if word !in ds[name] {
      assert ds[name] - {word} == ds[name];
    }
  }

  class DictionaryManager {
    var dicts: Dicts

    constructor ()
      ensures dicts == map[]
    {
      dicts := map[];
    }

    /** createDict: true exactly when the name was new. */
    method CreateDict(name: string) returns (created: bool)
      modifies this
      ensures created == (name !in old(dicts))
      ensures dicts == Created(old(dicts), name)
    {
      created := name !in dicts;
      dicts := Created(dicts, name);
    }

    /** getDict / getDictMutable: the dictionary, or none (the null pointer
        the source returns when `at` throws). */
    function GetDict(name: string): (r: Option<Dict>)
      reads this
      ensures r.None? <==> name !in dicts
      ensures r.Some? ==> r.value == dicts[name]
    {
      if name in dicts then Some(dicts[name]) else None
    }

    /** getFreq: `(true, count)` when the dictionary and the word exist;
        otherwise `false` with the caller's `freq` untouched. */
    function GetFreq(name: string, word: string, freq: int): (r: (bool, int))
      reads this
      ensures r.0 <==> name in dicts && word in dicts[name]
      ensures r.0 ==> r.1 == dicts[name][word]
      ensures !r.0 ==> r.1 == freq
    {
      match GetDict(name)
      case None => (false, freq)
      case Some(d) => if word in d then (true, d[word]) else (false, freq)
    }

    /** addWord: false for an unknown dictionary, which changes nothing. */
    method AddWord(name: string, word: string, freq: int) returns (ok: bool)
      modifies this
      ensures ok == (name in old(dicts))
      ensures ok ==> dicts == WithWord(old(dicts), name, word, freq)
      ensures !ok ==> dicts == old(dicts)
    {
      var d := GetDict(name);
      if d.None? {
        return false;
      }
      var dict := d.value;
      dict := dict[word := Count(dict, word) + freq];
      dicts := dicts[name := dict];
      ok := true;
    }

    /** removeWord: false, with nothing changed, for an unknown dictionary
        or word; otherwise the word is erased. */
    method RemoveWord(name: string, word: string) returns (ok: bool)
      modifies this
      ensures ok == (name in old(dicts) && word in old(dicts)[name])
      ensures ok ==> dicts == WithoutWord(old(dicts), name, word)
      ensures !ok ==> dicts == old(dicts)
    {
      var d := GetDict(name);
      if d.None? {
        return false;
      }
      if word !in d.value {
        return false;
      }
      dicts := dicts[name := d.value - {word}];
      ok := true;
    }

    /** loadFromFile: an unknown dictionary gives false and nothing changes.
        Otherwise the dictionary is cleared first; when the file cannot be
        opened (`None`) it stays empty and false is returned; otherwise the
        file's whitespace-separated words are counted into it. */
    method LoadFromFile(name: string, file: Option<seq<string>>) returns (ok: bool)
      modifies this
      ensures ok == (name in old(dicts) && file.Some?)
      ensures name !in old(dicts) ==> dicts == old(dicts)
      ensures name in old(dicts) ==> dicts.Keys == old(dicts).Keys
                                     && forall n :: n in dicts && n != name ==> dicts[n] == old(dicts)[n]
      ensures name in old(dicts) && file.None? ==> dicts[name] == map[]
      ensures name in old(dicts) && file.Some? ==> dicts[name] == Tally(map[], file.value)
    {
      if name !in dicts {
        return false;
      }
      dicts := dicts[name := map[]];
      if file.None? {
        return false;
      }
      var words := file.value;
      var dict: Dict := map[];
      var i := 0;
      while i < |words|
        invariant 0 <= i <= |words|
        invariant dict == Tally(map[], words[..i])
        invariant dicts == old(dicts)[name := map[]]
      {
        var word := NormaliseWord(words[i]);
        if word != [] {
          dict := dict[word := Count(dict, word) + 1];
        }
        assert words[..i + 1][..i] == words[..i];
        i := i + 1;
      }
      assert words[..i] == words;
      dicts := dicts[name := dict];
      ok := true;
    }
  }

  /** The two passes over a word: lowering, then compacting the letters. */
  method NormaliseWord(w: string) returns (r: string)
    ensures r == Normalise(w)
  {
    var lowered := LowerAll(w);
    r := KeepLetters(lowered);
  }

  /** `std::transform(…, ::tolower)`, in place. */
  method LowerAll(w: string) returns (r: string)
    ensures r == Lowered(w)
  {
    r := w;
    var i := 0;
    while i < |r|
      invariant 0 <= i <= |r| == |w|
      invariant forall k :: 0 <= k < i ==> r[k] == ToLower(w[k])
      invariant forall k :: i <= k < |r| ==> r[k] == w[k]
    {
      r := r[i := ToLower(r[i])];
      i := i + 1;
    }
  }

  /** `erase(remove_if(…, !isalpha))`: the letters kept, in order. */
  method KeepLetters(w: string) returns (r: string)
    ensures r == Letters(w)
  {
    r := [];
    var j := 0;
    while j < |w|
      invariant 0 <= j <= |w|
      invariant r + Letters(w[j..]) == Letters(w)
    {
      assert w[j..] == [w[j]] + w[j + 1..];
      if IsAlpha(w[j]) {
        r := r + [w[j]];
      }
      j := j + 1;
    }
  }

  /** A file that was loaded holds, for each word, the number of its
      occurrences, and nothing else. */
  lemma LoadedCounts(words: seq<string>)
    ensures forall w :: w in Tally(map[], words) <==> w != [] && Occurrences(words, w) > 0
    ensures forall w :: w in Tally(map[], words) ==> Tally(map[], words)[w] == Occurrences(words, w)
  {
    TallyCounts(map[], words);
  }
}
