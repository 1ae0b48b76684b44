/** The front end of the dictionary program: the start-up that loads a
    file named on the command line into the dictionary "main", the
    tokenizer `splitString`, and the handling of one input line (split into
    command name and arguments, look the name up in the command table, run
    the command or refuse the line). */
module CommandLine {
  import opened CType
  import opened Wrappers
  import opened Dictionaries
  import opened Commands
  import opened Decimal
  import opened HashNode
  import opened HashTable

  // ---------------------------------------------------------------------
  // Tokens

  /** The number of characters at the front of `s` that are not white
      space. */
  function RunLength(s: string): (k: nat)
    ensures k <= |s|
    ensures forall i :: 0 <= i < k ==> !IsSpace(s[i])
    ensures k < |s| ==> IsSpace(s[k])
  {
    if s != [] && !IsSpace(s[0]) then 1 + RunLength(s[1..]) else 0
  }

  /** The maximal runs of characters that are not white space, in order:
      the words of `s`. */
  function Words(s: string): seq<string>
    decreases |s|
  {
    if s == [] then []
    else if IsSpace(s[0]) then Words(s[1..])
    else
      var k := RunLength(s);
      [s[..k]] + Words(s[k..])
  }

  /** The characters of `s` that are not white space. */
  function NonSpace(s: string): string
    decreases |s|
  {
    if s == [] then [] else (if IsSpace(s[0]) then [] else [s[0]]) + NonSpace(s[1..])
  }

  /** The words written one after the other. */
  function Concat(ws: seq<string>): string
    decreases |ws|
  {
    if ws == [] then [] else ws[0] + Concat(ws[1..])
  }

  predicate NoSpace(w: string)
  {
    forall i :: 0 <= i < |w| ==> !IsSpace(w[i])
  }

  lemma {:induction false} RunLengthOfRun(w: string, t: string)
    requires NoSpace(w) && (t == [] || IsSpace(t[0]))
    ensures RunLength(w + t) == |w|
    decreases |w|
  {
    if w != [] {
      assert (w + t)[1..] == w[1..] + t;
      RunLengthOfRun(w[1..], t);
    } else {
      assert w + t == t;
    }
  }

  /** A run of non-space characters ended by white space or by the end of
      the text is one word. */
  lemma WordsOfRun(w: string, t: string)
    requires w != [] && NoSpace(w) && (t == [] || IsSpace(t[0]))
    ensures Words(w + t) == [w] + Words(t)
  {
    RunLengthOfRun(w, t);
    var s := w + t;
    assert s[..|w|] == w && s[|w|..] == t;
  }

  lemma {:induction false} NonSpaceAppend(a: string, b: string)
    ensures NonSpace(a + b) == NonSpace(a) + NonSpace(b)
    decreases |a|
  {
    if a != [] {
      assert (a + b)[1..] == a[1..] + b;
      NonSpaceAppend(a[1..], b);
    } else {
      assert a + b == b;
    }
  }

  lemma {:induction false} NonSpaceOfRun(w: string)
    requires NoSpace(w)
    ensures NonSpace(w) == w
    decreases |w|
  {
    if w != [] {
      NonSpaceOfRun(w[1..]);
      assert w == [w[0]] + w[1..];
    }
  }

  /** The tokens are non-empty and free of white space; written one after
      the other they give the text without its white space; and there are
      none exactly when the text is all white space (or empty). */
  lemma {:induction false} WordsFacts(s: string)
    ensures forall i :: 0 <= i < |Words(s)| ==> Words(s)[i] != [] && NoSpace(Words(s)[i])
    ensures Concat(Words(s)) == NonSpace(s)
    ensures Words(s) == [] <==> forall i :: 0 <= i < |s| ==> IsSpace(s[i])
    decreases |s|
  {
    if s != [] {
      if IsSpace(s[0]) {
        WordsFacts(s[1..]);
        assert NonSpace(s) == NonSpace(s[1..]);
        if forall i :: 0 <= i < |s[1..]| ==> IsSpace(s[1..][i]) {
          forall i | 0 <= i < |s|
            ensures IsSpace(s[i])
          {
            if i > 0 {
              assert s[i] == s[1..][i - 1];
            }
          }
        }
      } else {
        var k := RunLength(s);
        var w := s[..k];
        var t := s[k..];
        WordsFacts(t);
        assert s == w + t;
        NonSpaceAppend(w, t);
        NonSpaceOfRun(w);
        var ws := Words(s);
        assert ws == [w] + Words(t);
        assert ws[1..] == Words(t);
        forall i | 0 <= i < |ws|
          ensures ws[i] != [] && NoSpace(ws[i])
        {
          if i > 0 {
            assert ws[i] == Words(t)[i - 1];
          }
        }
      }
    }
  }

  /** A white-space character ends the token being collected, if any, and
      is then skipped. */
  lemma SpaceStep(tokens: seq<string>, current: string, s: string, i: nat)
    requires i < |s| && IsSpace(s[i]) && NoSpace(current)
    requires tokens + Words(current + s[i..]) == Words(s)
    ensures (if current == [] then tokens else tokens + [current]) + Words("" + s[i + 1..]) == Words(s)
  {
    var rest := s[i..];
    assert rest[1..] == s[i + 1..];
    assert "" + s[i + 1..] == s[i + 1..];
    if current == [] {
      assert current + rest == rest;
    } else {
      WordsOfRun(current, rest);
    }
  }

  /** Any other character extends the token being collected. */
  lemma CharStep(tokens: seq<string>, current: string, s: string, i: nat)
    requires i < |s| && !IsSpace(s[i]) && NoSpace(current)
    requires tokens + Words(current + s[i..]) == Words(s)
    ensures tokens + Words((current + [s[i]]) + s[i + 1..]) == Words(s)
    ensures NoSpace(current + [s[i]])
  {
    assert current + s[i..] == (current + [s[i]]) + s[i + 1..];
  }

  /** The first loop of splitString: the index of the first character that
      is not white space, or the length when there is none. Skipping leading
      white space leaves the words as they are. */
  method SkipSpaces(s: string) returns (start: nat)
    ensures start <= |s| && Words(s[start..]) == Words(s)
    ensures forall i :: 0 <= i < start ==> IsSpace(s[i])
    ensures start < |s| ==> !IsSpace(s[start])
  {
    start := 0;
    assert s[0..] == s;
    while start < |s| && IsSpace(s[start])
      invariant start <= |s| && Words(s[start..]) == Words(s)
      invariant forall i :: 0 <= i < start ==> IsSpace(s[i])
    {
      assert s[start..][1..] == s[start + 1..];
      start := start + 1;
    }
  }

  /** splitString: skip the leading white space, then collect each run of
      other characters as a token. */
  method SplitString(s: string) returns (tokens: seq<string>)
    ensures tokens == Words(s)
  {
    tokens := [];
    var current: string := "";
    var start := SkipSpaces(s);
    assert tokens + Words(current + s[start..]) == Words(s) by {
      assert current + s[start..] == s[start..];
    }
    for i := start to |s|
      invariant tokens + Words(current + s[i..]) == Words(s)
      invariant NoSpace(current)
    {
      if IsSpace(s[i]) {
        SpaceStep(tokens, current, s, i);
        if current != [] {
          tokens := tokens + [current];
          current := "";
        }
      } else {
        CharStep(tokens, current, s, i);
        current := current + [s[i]];
      }
    }
    assert current + s[|s|..] == current;
    if current != [] {
      WordsOfRun(current, []);
      assert current + [] == current;
      tokens := tokens + [current];
    }
  }

  /** The command name is the first token and the arguments are the rest,
      copied in order into a new list. */
  method SplitCommand(tokens: seq<string>) returns (name: string, args: Args)
    requires tokens != []
    ensures name == tokens[0] && args == tokens[1..]
    ensures |args| + 1 == |tokens|
  {
    name := tokens[0];
    args := [];
    for i := 1 to |tokens|
      invariant args == tokens[1..i]
    {
      assert tokens[1..i + 1] == tokens[1..i] + [tokens[i]];
      args := args + [tokens[i]];
    }
  }

  // ---------------------------------------------------------------------
  // One line

  /** What one line writes: a text, or the `median` line, whose number is
      the mean of the two middle frequencies printed as a `double`. */
  datatype Reply = Line(text: string) | MedianLine(lower: int, upper: int)

  /** What `add` (prefix `freq:`) or `increment` (prefix `by:`) does to the
      dictionaries: a well-formed line naming a known dictionary adds the
      amount to the word; anything else changes nothing. */
  ghost function Adjusted(args: Args, ds: Dicts, prefix: string): Dicts
  {
    if (|args| == 2 || |args| == 3) && Amount(args, prefix).Some? && args[0] in ds
    then WithWord(ds, args[0], args[1], Amount(args, prefix).value)
    else ds
  }

  /** The dictionaries after running command `h` on `args`: only `create`,
      `add`, `increment` and `delete` change them. */
  ghost function Effect(h: Handler, args: Args, ds: Dicts): Dicts
  {
    match h
    case OnCreate => if |args| == 1 then Created(ds, args[0]) else ds
    case OnAdd => Adjusted(args, ds, "freq:")
    case OnIncrement => Adjusted(args, ds, "by:")
    case OnDelete =>
      if |args| == 2 && args[0] in ds && args[1] in ds[args[0]] then WithoutWord(ds, args[0], args[1]) else ds
    case _ => ds
  }

  /** What the line loop's handler writes for `std::bad_function_call`. */
  const BadCall := "ERROR Unhandled exception: bad_function_call\n"

  // The text each command writes, given its arguments and the dictionaries
  // before it runs.

  ghost function CreateText(args: Args, ds: Dicts): string
  {
    if |args| != 1 then Invalid
    else if args[0] in ds then DictExists
    else "OK: Dictionary '" + args[0] + "' created\n"
  }

  ghost function AdjustText(args: Args, ds: Dicts, prefix: string, verb: string, link: string): string
  {
    if |args| != 2 && |args| != 3 then Invalid
    else if Amount(args, prefix).None? then Invalid
    else if args[0] !in ds then DictNotFound
    else "OK: " + verb + " '" + args[1] + "' " + link + IntToString(Amount(args, prefix).value) + "\n"
  }

  ghost function SearchText(args: Args, ds: Dicts): string
  {
    if |args| != 2 then Invalid
    else if args[0] !in ds then DictNotFound
    else if args[1] !in ds[args[0]] then NotFound
    else "FOUND: freq=" + IntToString(ds[args[0]][args[1]]) + "\n"
  }

  ghost function DeleteText(args: Args, ds: Dicts): string
  {
    if |args| != 2 then Invalid
    else if !(args[0] in ds && args[1] in ds[args[0]]) then WordNotFound
    else "OK: Deleted '" + args[1] + "'\n"
  }

  ghost function DumpText(args: Args, ds: Dicts): string
  {
    if |args| != 1 then Invalid
    else if args[0] !in ds then DictNotFound
    else if ds[args[0]] == map[] then EmptyDict
    else "dump: " + Joined(Listing(ds[args[0]])) + " \n"
  }

  ghost function RankedText(args: Args, ds: Dicts, title: string, less: (Entry, Entry) -> bool): string
  {
    if |args| != 2 || Stoul(args[1]).Throws? then Invalid
    else if args[0] !in ds then DictNotFound
    else if ds[args[0]] == map[] then EmptyDict
    else title + " " + NatToString(Stoul(args[1]).value) + ": "
         + Trailed(Ranking(ds[args[0]], Stoul(args[1]).value, less)) + "\n"
  }

  ghost function ThresholdText(args: Args, ds: Dicts, title: string, strict: bool): string
  {
    if |args| != 2 || Stoi(args[1]).Throws? then Invalid
    else if args[0] !in ds then DictNotFound
    else title + " " + IntToString(Stoi(args[1]).value) + ": "
         + Joined(Kept(Listing(ds[args[0]]), strict, Stoi(args[1]).value)) + " \n"
  }

  /** `median`: a refusal, or the two middle values of the sorted
      frequencies. */
  ghost function MedianOut(args: Args, ds: Dicts): Reply
  {
    if |args| != 1 then Line(Invalid)
    else if args[0] !in ds then Line(DictNotFound)
    else if ds[args[0]] == map[] then Line(EmptyDict)
    else
      MedianFacts(ds[args[0]]);
      var f := SortedFreqs(ds[args[0]]);
      MedianLine(f[(|f| - 1) / 2], f[|f| / 2])
  }

  /** What running command `h` on `args` writes; the empty function object
      writes the `bad_function_call` line. */
  ghost function Written(h: Handler, args: Args, ds: Dicts): Reply
  {
    match h
    case Unset => Line(BadCall)
    case OnCreate => Line(CreateText(args, ds))
    case OnAdd => Line(AdjustText(args, ds, "freq:", "Added", "with freq="))
    case OnIncrement => Line(AdjustText(args, ds, "by:", "Incremented", "by "))
    case OnSearch => Line(SearchText(args, ds))
    case OnDelete => Line(DeleteText(args, ds))
    case OnDump => Line(DumpText(args, ds))
    case OnTop => Line(RankedText(args, ds, "top", TopLess))
    case OnBot => Line(RankedText(args, ds, "bot", BotLess))
    case OnMinFreq => Line(ThresholdText(args, ds, "minfreq", false))
    case OnMaxFreq => Line(ThresholdText(args, ds, "maxfreq", true))
    case OnMedian => MedianOut(args, ds)
  }

  /** `cmdIt->second(args, dm, std::cout)`: run the command the table
      stored. Calling the empty function object throws
      `std::bad_function_call`, which the line loop reports. */
  method Execute(h: Handler, args: Args, dm: DictionaryManager) returns (r: Reply)
    modifies dm
    ensures dm.dicts == Effect(h, args, old(dm.dicts))
    ensures r == Written(h, args, old(dm.dicts))
  {
    match h {
      case Unset =>
        r := Line(BadCall);
      case OnCreate =>
        r := RunCreate(args, dm);
      case OnAdd =>
        r := RunAdjust(args, dm, "freq:", "Added", "with freq=");
      case OnIncrement =>
        r := RunAdjust(args, dm, "by:", "Incremented", "by ");
      case OnDelete =>
        r := RunDelete(args, dm);
      case _ =>
        r := Query(h, args, dm);
    }
  }

  method RunCreate(args: Args, dm: DictionaryManager) returns (r: Reply)
    modifies dm
    ensures dm.dicts == Effect(OnCreate, args, old(dm.dicts)) && r == Line(CreateText(args, old(dm.dicts)))
  {
    var out := Create(args, dm);
    r := Line(out);
  }

  method RunAdjust(args: Args, dm: DictionaryManager, prefix: string, verb: string, link: string) returns (r: Reply)
    modifies dm
    ensures dm.dicts == Adjusted(args, old(dm.dicts), prefix)
    ensures r == Line(AdjustText(args, old(dm.dicts), prefix, verb, link))
  {
    var out := Adjust(args, dm, prefix, verb, link);
    r := Line(out);
  }

  method RunDelete(args: Args, dm: DictionaryManager) returns (r: Reply)
    modifies dm
    ensures dm.dicts == Effect(OnDelete, args, old(dm.dicts)) && r == Line(DeleteText(args, old(dm.dicts)))
  {
    var out := Delete(args, dm);
    r := Line(out);
  }

  /** The commands that only read the dictionaries. */
  method Query(h: Handler, args: Args, dm: DictionaryManager) returns (r: Reply)
    requires h.OnSearch? || h.OnDump? || h.OnTop? || h.OnBot? || h.OnMinFreq? || h.OnMaxFreq? || h.OnMedian?
    ensures r == Written(h, args, dm.dicts)
  {
    match h {
      case OnSearch =>
        var out := Search(args, dm);
        r := Line(out);
      case OnDump =>
        var out := Dump(args, dm);
        r := Line(out);
      case OnTop =>
        var out := Ranked(args, dm, "top", TopLess);
        r := Line(out);
      case OnBot =>
        var out := Ranked(args, dm, "bot", BotLess);
        r := Line(out);
      case OnMinFreq =>
        var out := Threshold(args, dm, "minfreq", false);
        r := Line(out);
      case OnMaxFreq =>
        var out := Threshold(args, dm, "maxfreq", true);
        r := Line(out);
      case OnMedian =>
        var m := Median(args, dm);
        match m {
          case Refused(text) => r := Line(text);
          case Middle(lower, upper) => r := MedianLine(lower, upper);
        }
    }
  }

  /** One iteration of the line loop of `main`: an empty line, or one with
      no token, is skipped; otherwise the first token is looked up in the
      command table, an unknown name is refused, and a known one runs its
      command on the other tokens (reported in `command`). */
  method HandleLine(line: string, t: Table<string, Handler>, dm: DictionaryManager)
    returns (r: Reply, command: Option<(Handler, Args)>)
    requires t.Valid() && NoDeleted(t.slots[..]) && t.size < t.slots.Length
    modifies dm
    ensures Words(line) == [] ==> r == Line("") && command == None && dm.dicts == old(dm.dicts)
    ensures Words(line) != [] && Words(line)[0] !in t.Contents() ==>
              r == Line(Invalid) && command == None && dm.dicts == old(dm.dicts)
    ensures Words(line) != [] && Words(line)[0] in t.Contents() ==>
              command == Some((t.Contents()[Words(line)[0]], Words(line)[1..]))
    ensures command.Some? ==> dm.dicts == Effect(command.value.0, command.value.1, old(dm.dicts))
    ensures command.Some? ==> r == Written(command.value.0, command.value.1, old(dm.dicts))
  {
    if line == [] {
      return Line(""), None;
    }
    var tokens := SplitString(line);
    if tokens == [] {
      return Line(""), None;
    }
    var name, args := SplitCommand(tokens);
    RoomMeansLookupEnds(t.slots[..], Home(t.hash, name, t.slots.Length), name);
    var found := t.Find(name);
    var end := t.End();
    if !found.Equals(end) {
      var h := t.slots[found.current].value;
      command := Some((h, args));
      r := Execute(h, args, dm);
    } else {
      r := Line(Invalid);
      command := None;
    }
  }

  /** With the table createCommandMap builds, a line runs a command exactly
      when its first word is one of the eleven names, and then the command
      registered under that name. */
  lemma DispatchByRegistry(line: string, t: Table<string, Handler>)
    requires t.Valid() && t.Contents() == Registry()
    ensures Words(line) != [] && Words(line)[0] in t.Contents() <==>
              Words(line) != [] && Words(line)[0] in {"create", "add", "increment", "search", "delete", "dump",
                                                      "top", "bot", "minfreq", "maxfreq", "median"}
    ensures Words(line) != [] && Words(line)[0] in t.Contents() ==> t.Contents()[Words(line)[0]] != Unset
  {
  }

  // ---------------------------------------------------------------------
  // Start-up

  /** The start of `main`. With one command-line argument (`argument` is
      present; its value is the file's text, or none when the file cannot be
      opened) the dictionary "main" is created and the file's words are
      counted into it; the text written reports a name clash or a missing
      file. The file is read word by word with `>>`, which yields exactly
      `Words` of its text. */
  method Start(dm: DictionaryManager, argument: Option<Option<string>>) returns (out: string)
    modifies dm
    ensures argument.None? ==> out == "" && dm.dicts == old(dm.dicts)
    ensures argument.Some? && "main" in old(dm.dicts) ==> out == "DICT EXISTS\n" && dm.dicts == old(dm.dicts)
    ensures argument.Some? && "main" !in old(dm.dicts) ==>
              && out == (if argument.value.None? then "FILE NOT FOUND\n" else "")
              && dm.dicts.Keys == old(dm.dicts).Keys + {"main"}
              && (forall n :: n in old(dm.dicts) ==> dm.dicts[n] == old(dm.dicts)[n])
              && dm.dicts["main"] == (if argument.value.None? then map[] else Tally(map[], Words(argument.value.value)))
  {
    out := "";
    if argument.Some? {
      var created := dm.CreateDict("main");
      if !created {
        out := "DICT EXISTS\n";
      } else {
        var file: Option<seq<string>> := None;
        if argument.value.Some? {
          var words := SplitString(argument.value.value);
          file := Some(words);
        }
        var loaded := dm.LoadFromFile("main", file);
        if !loaded {
          out := "FILE NOT FOUND\n";
        }
      }
    }
  }
}
