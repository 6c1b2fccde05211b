/**
 * `getPixelSpec`: reads the bit-field specification out of the shared shader text.
 * The text between the first `//METAPROGRAMMING_START` marker and the first
 * `//METAPROGRAMMING_END` marker after it is split into lines; each line holding a
 * parenthesised group `(name, type, channel, <start>u, <end>u)` declares one field.
 */
module PixelSpec {
  import opened Wrappers
  import opened Text

  /** Where a field lives: a channel index (-1 when the letter is not one of r, g, b, a) and a 1-based bit range. */
  datatype PixelState = PixelState(channel: int, start: JsNumber, end: JsNumber)

  /** Field name to its bit range (a JavaScript `Map`). */
  type PixelSpecification = map<string, PixelState>

  /**
   * Why `getPixelSpec` throws: no marker block, or a declaration with fewer than five
   * arguments (the index of that line within the block).
   */
  datatype SpecError = MissingBlock | MalformedDeclaration(index: nat)

  /** The result of reading one line of the block. */
  datatype LineParse = NoGroup | MissingArguments | Declares(name: string, state: PixelState)

  const StartMarker: string := "//METAPROGRAMMING_START"
  const EndMarker: string := "//METAPROGRAMMING_END"

  /** The channel letters in index order (`"rgba".split("")`). */
  const ChannelLetters: seq<string> := ["r", "g", "b", "a"]

  /** Some start marker is followed, after its last character, by an end marker. */
  predicate HasBlock(text: string) {
    exists i, j :: 0 <= i <= |text| && 0 <= j <= |text| && OccursAt(text, StartMarker, i) && OccursAt(text, EndMarker, j) && i + |StartMarker| <= j
  }

  /**
   * The block the non-greedy marker regular expression matches first, as the index of its
   * start marker and the index of its end marker: the leftmost start marker, and the first
   * end marker after it.
   */
  function FindBlock(text: string): (r: Option<(nat, nat)>)
    ensures r.None? <==> !HasBlock(text)
    ensures r.Some? ==> OccursAt(text, StartMarker, r.value.0) && OccursAt(text, EndMarker, r.value.1)
    ensures r.Some? ==> r.value.0 + |StartMarker| <= r.value.1
    ensures r.Some? ==> forall k :: 0 <= k < r.value.0 ==> !OccursAt(text, StartMarker, k)
    ensures r.Some? ==> forall k :: r.value.0 + |StartMarker| <= k < r.value.1 ==> !OccursAt(text, EndMarker, k)
  {
    match FindFrom(text, StartMarker, 0)
    case None => None
    case Some(i) =>
      match FindFrom(text, EndMarker, i + |StartMarker|)
      case None => None
      case Some(j) => Some((i, j))
  }

  /** The line holds a `(` followed somewhere later by a `)`. */
  predicate HasGroup(line: string) {
    exists i, j :: 0 <= i < j < |line| && line[i] == '(' && line[j] == ')'
  }

  /**
   * The parentheses of the first `(…)` group, as the non-greedy group expression finds it:
   * the first `(` of the line and the first `)` after it.
   */
  function GroupBounds(line: string): (r: Option<(nat, nat)>)
    ensures r.None? <==> !HasGroup(line)
    ensures r.Some? ==> r.value.0 < r.value.1 < |line| && line[r.value.0] == '(' && line[r.value.1] == ')'
    ensures r.Some? ==> forall k :: 0 <= k < r.value.0 ==> line[k] != '('
    ensures r.Some? ==> forall k :: r.value.0 < k < r.value.1 ==> line[k] != ')'
  {
    match FindChar(line, '(', 0)
    case None => None
    case Some(a) =>
      match FindChar(line, ')', a + 1)
      case None => None
      case Some(b) => Some((a, b))
  }

  /** `"rgba".split("").indexOf(s)`. */
  function ChannelIndex(s: string): (r: int)
    ensures -1 <= r < 4
    ensures r == -1 <==> s !in ChannelLetters
    ensures 0 <= r ==> ChannelLetters[r] == s
  {
    if s == "r" then 0
    else if s == "g" then 1
    else if s == "b" then 2
    else if s == "a" then 3
    else -1
  }

  /** The text between the parentheses of the first group. */
  function GroupContents(line: string): string
    requires HasGroup(line)
  {
    var (a, b) := GroupBounds(line).value;
    line[a + 1..b]
  }

  /**
   * The comma-separated arguments of a group's contents, each with its spaces removed:
   * one more argument than there are commas, none holding a space or a comma, and
   * together, comma-joined, the contents without their spaces.
   */
  function Arguments(inner: string): (r: seq<string>)
    ensures |r| == multiset(inner)[','] + 1
    ensures forall i :: 0 <= i < |r| ==> ' ' !in r[i] && ',' !in r[i]
    ensures Join(r, ',') == RemoveSpaces(inner)
  {
    var parts := Split(inner, ',');
    var r := seq(|parts|, i requires 0 <= i < |parts| => RemoveSpaces(parts[i]));
    SplitCount(inner, ',');
    forall i | 0 <= i < |r|
      ensures ',' !in r[i]
    {
      RemoveSpacesContent(parts[i]);
      assert multiset(r[i])[','] == 0;
    }
    RemoveSpacesJoin(parts, r, ',');
    JoinSplit(inner, ',');
    r
  }

  /**
   * One line of the block. Without a group the line is skipped; with fewer than five
   * arguments (fewer than four commas in the group) reading `args[3]` or `args[4]`
   * throws; otherwise the name is the first argument minus its first two characters, the
   * channel comes from the third, and start and end are the fourth and fifth arguments
   * minus their last character, as numbers.
   */
  function ParseLine(line: string): (r: LineParse)
    ensures r.NoGroup? <==> !HasGroup(line)
    ensures r.MissingArguments? <==> HasGroup(line) && multiset(GroupContents(line))[','] < 4
    ensures r.Declares? ==> ' ' !in r.name && ',' !in r.name
    ensures r.Declares? ==> -1 <= r.state.channel < 4
  {
    if !HasGroup(line) then NoGroup
    else
      var args := Arguments(GroupContents(line));
      if |args| < 5 then MissingArguments
      else
        Declares(Drop(args[0], 2),
                 PixelState(ChannelIndex(args[2]),
                            StrToNumber(DropLast(args[3])),
                            StrToNumber(DropLast(args[4]))))
  }

  /** Each line of the block, read on its own. */
  function ParseLines(lines: seq<string>): (r: seq<LineParse>)
    ensures |r| == |lines|
    ensures forall i :: 0 <= i < |lines| ==> r[i] == ParseLine(lines[i])
  {
    seq(|lines|, i requires 0 <= i < |lines| => ParseLine(lines[i]))
  }

  /** Line `i` declares a field called `name`. */
  predicate DeclaresName(parsed: seq<LineParse>, i: int, name: string) {
    0 <= i < |parsed| && parsed[i].Declares? && parsed[i].name == name
  }

  /**
   * Reads the parsed lines in order into a map; a later declaration of a name replaces the
   * earlier one (`Map.set`), and the first line with too few arguments aborts the whole parse.
   */
  function BuildSpec(parsed: seq<LineParse>): (r: Result<PixelSpecification, SpecError>)
    ensures r.Ok? <==> forall i :: 0 <= i < |parsed| ==> !parsed[i].MissingArguments?
    ensures r.Err? ==> r.error.MalformedDeclaration? && r.error.index < |parsed|
    ensures r.Err? ==> parsed[r.error.index].MissingArguments?
    ensures r.Err? ==> forall i :: 0 <= i < r.error.index ==> !parsed[i].MissingArguments?
    ensures r.Ok? ==> |r.value| <= |parsed|
  {
    if |parsed| == 0 then Ok(map[])
    else
      var init := parsed[..|parsed| - 1];
      var last := parsed[|parsed| - 1];
      assert forall i :: 0 <= i < |init| ==> init[i] == parsed[i];
      match BuildSpec(init)
      case Err(e) => Err(e)
      case Ok(spec) =>
        match last
        case NoGroup => Ok(spec)
        case MissingArguments => Err(MalformedDeclaration(|parsed| - 1))
        case Declares(name, state) =>
          assert spec[name := state].Keys <= spec.Keys + {name};
          Ok(spec[name := state])
  }

  /** The text of the first block, from its start marker through its end marker. */
  function Block(text: string): (b: string)
    requires HasBlock(text)
    ensures OccursAt(b, StartMarker, 0) && OccursAt(b, EndMarker, |b| - |EndMarker|)
  {
    var (i, j) := FindBlock(text).value;
    SliceBetween(text, StartMarker, EndMarker, i, j);
    text[i..j + |EndMarker|]
  }

  /** The slice from an occurrence of `p` through a later occurrence of `q` starts with `p` and ends with `q`. */
  lemma SliceBetween(text: string, p: string, q: string, i: nat, j: nat)
    requires OccursAt(text, p, i) && OccursAt(text, q, j) && i + |p| <= j
    ensures OccursAt(text[i..j + |q|], p, 0)
    ensures OccursAt(text[i..j + |q|], q, |text[i..j + |q|]| - |q|)
  {
    assert text[i..j + |q|][..|p|] == text[i..i + |p|];
    assert text[i..j + |q|][j - i..] == text[j..j + |q|];
  }

  /** The lines of a block read in order into the field map. */
  function ParseBlock(block: string): (r: Result<PixelSpecification, SpecError>)
    ensures r.Ok? ==> |r.value| <= |Split(block, '\n')|
  {
    BuildSpec(ParseLines(Split(block, '\n')))
  }

  /** `getPixelSpec(text)`. */
  function GetPixelSpec(text: string): (r: Result<PixelSpecification, SpecError>)
    ensures r == Err(MissingBlock) <==> !HasBlock(text)
    ensures r.Ok? ==> |r.value| <= |Split(Block(text), '\n')|
  {
    if FindBlock(text).None? then Err(MissingBlock) else ParseBlock(Block(text))
  }

  /** A block found in `text` is found at the same place in any extension of `text`. */
  lemma FindBlockExtend(text: string, rest: string)
    requires HasBlock(text)
    ensures FindBlock(text + rest) == FindBlock(text)
  {
    BlockMarkersFound(text);
    var i := FindFrom(text, StartMarker, 0).value;
    FindFromExtend(text, rest, StartMarker, 0);
    FindFromExtend(text, rest, EndMarker, i + |StartMarker|);
  }

  lemma BlockMarkersFound(text: string)
    requires HasBlock(text)
    ensures FindFrom(text, StartMarker, 0).Some?
    ensures FindFrom(text, EndMarker, FindFrom(text, StartMarker, 0).value + |StartMarker|).Some?
  {
    assert FindBlock(text).Some?;
  }

  /** Text after a complete block does not change the parse: only the first block is read. */
  lemma OnlyFirstBlockParsed(text: string, rest: string)
    requires HasBlock(text)
    ensures GetPixelSpec(text + rest) == GetPixelSpec(text)
  {
    FindBlockExtend(text, rest);
    var (i, j) := FindBlock(text).value;
    PrefixSlice(text, rest, i, j + |EndMarker|);
    assert Block(text + rest) == Block(text);
  }

  lemma PrefixSlice(a: string, b: string, i: nat, j: nat)
    requires i <= j <= |a|
    ensures (a + b)[i..j] == a[i..j]
  {
  }

  /** A declaration that no later line overrides is the one the map keeps. */
  lemma {:induction false} LastDeclarationWins(parsed: seq<LineParse>, i: nat)
    requires BuildSpec(parsed).Ok?
    requires i < |parsed| && parsed[i].Declares?
    requires forall j :: i < j < |parsed| ==> !DeclaresName(parsed, j, parsed[i].name)
    ensures parsed[i].name in BuildSpec(parsed).value
    ensures BuildSpec(parsed).value[parsed[i].name] == parsed[i].state
    decreases |parsed|
  {
    var init := parsed[..|parsed| - 1];
    assert forall k :: 0 <= k < |init| ==> init[k] == parsed[k];
    if i < |parsed| - 1 {
      forall j | i < j < |init|
        ensures !DeclaresName(init, j, parsed[i].name)
      {
        assert !DeclaresName(parsed, j, parsed[i].name);
      }
      LastDeclarationWins(init, i);
      assert !DeclaresName(parsed, |parsed| - 1, parsed[i].name);
    }
  }

  /** The keys of the map are exactly the names some line declares. */
  lemma {:induction false} KeysAreDeclaredNames(parsed: seq<LineParse>, name: string)
    requires BuildSpec(parsed).Ok?
    ensures name in BuildSpec(parsed).value <==> exists i :: DeclaresName(parsed, i, name)
    decreases |parsed|
  {
    if |parsed| > 0 {
      var init := parsed[..|parsed| - 1];
      var last := parsed[|parsed| - 1];
      assert forall k :: 0 <= k < |init| ==> init[k] == parsed[k];
      KeysAreDeclaredNames(init, name);
      var spec := BuildSpec(init).value;
      var lastDeclares := DeclaresName(parsed, |parsed| - 1, name);
      assert name in BuildSpec(parsed).value <==> name in spec || lastDeclares;
      if name in spec {
        var i :| DeclaresName(init, i, name);
        assert DeclaresName(parsed, i, name);
      }
      if exists i :: DeclaresName(parsed, i, name) {
        var i :| DeclaresName(parsed, i, name);
        if i < |parsed| - 1 {
          assert DeclaresName(init, i, name);
        }
      }
    }
  }

  /**
   * A declaration line in the shape the parser reads:
   * `head(tag+name, kind, ch, <start>u, <end>u)tail`, where `tail` is anything at all.
   */
  function DeclarationLine(head: string, tag: string, name: string, kind: string, ch: char, start: nat, end: nat, tail: string): string
  {
    head + "(" + GroupText(tag + name, kind, ch, DecimalString(start) + "u", DecimalString(end) + "u") + ")" + tail
  }

  /** The five arguments of a declaration, separated by `", "`. */
  function GroupText(a0: string, kind: string, ch: char, ds: string, de: string): string
  {
    a0 + ", " + kind + ", " + [ch] + ", " + ds + ", " + de
  }

  /** Characters that would end an argument, start the group early or be removed. */
  predicate PlainArgument(s: string) {
    ' ' !in s && ',' !in s && ')' !in s
  }

  /**
   * The first group of `head(inner)tail` is the parenthesised part when `head` has no `(`
   * and `inner` no `)`, whatever follows it.
   */
  lemma GroupOfWrapped(head: string, inner: string, tail: string)
    requires '(' !in head && ')' !in inner
    ensures GroupBounds(head + "(" + inner + ")" + tail) == Some((|head|, |head| + 1 + |inner|))
  {
    var line := head + "(" + inner + ")" + tail;
    assert line[|head|] == '(';
    assert forall k :: 0 <= k < |head| ==> line[k] == head[k];
    assert forall k :: |head| < k < |head| + 1 + |inner| ==> line[k] == inner[k - |head| - 1];
    assert line[|head| + 1 + |inner|] == ')';
  }

  /** The separator written as `", "` is a comma followed by a piece that starts with a space. */
  lemma CommaSpace(x: string, y: string)
    ensures x + ", " + y == x + [','] + (" " + y)
  {
  }

  /** One leading space is all that spaces removal takes from a space-free argument. */
  lemma RemoveLeadingSpace(x: string)
    requires ' ' !in x
    ensures RemoveSpaces(" " + x) == x
  {
    RemoveSpacesConcat(" ", x);
    RemoveSpacesNoSpace(x);
  }

  /** The comma-separated pieces of a declaration's group, spaces still in place. */
  lemma DeclarationPieces(a0: string, kind: string, ch: char, ds: string, de: string)
    requires PlainArgument(a0) && PlainArgument(kind) && PlainArgument(ds) && PlainArgument(de)
    requires ch != ' ' && ch != ','
    ensures Split(GroupText(a0, kind, ch, ds, de), ',') == [a0, " " + kind, " " + [ch], " " + ds, " " + de]
  {
    var l1 := a0 + ", " + kind;
    var l2 := l1 + ", " + [ch];
    var l3 := l2 + ", " + ds;
    assert Split(l1, ',') == [a0, " " + kind] by {
      SplitNoSeparator(a0, ',');
      CommaSplit(a0, kind, [a0]);
    }
    assert Split(l2, ',') == [a0, " " + kind, " " + [ch]] by {
      CommaSplit(l1, [ch], [a0, " " + kind]);
    }
    assert Split(l3, ',') == [a0, " " + kind, " " + [ch], " " + ds] by {
      CommaSplit(l2, ds, [a0, " " + kind, " " + [ch]]);
    }
    CommaSplit(l3, de, [a0, " " + kind, " " + [ch], " " + ds]);
  }

  /** Appending `", " + y` to a text adds the piece `" " + y` to its pieces. */
  lemma CommaSplit(x: string, y: string, pieces: seq<string>)
    requires Split(x, ',') == pieces && ',' !in y
    ensures Split(x + ", " + y, ',') == pieces + [" " + y]
  {
    CommaSpace(x, y);
    SplitBeforeLast(x, ',', " " + y);
  }

  /** The arguments of a declaration's group, once spaces are removed. */
  lemma DeclarationArguments(a0: string, kind: string, ch: char, ds: string, de: string)
    requires PlainArgument(a0) && PlainArgument(kind) && PlainArgument(ds) && PlainArgument(de)
    requires ch != ' ' && ch != ','
    ensures Arguments(GroupText(a0, kind, ch, ds, de)) == [a0, kind, [ch], ds, de]
  {
    DeclarationPieces(a0, kind, ch, ds, de);
    ArgumentsOfPieces(GroupText(a0, kind, ch, ds, de), a0, kind, [ch], ds, de);
  }

  /** Pieces that are space-free after one leading space give those words as arguments. */
  lemma ArgumentsOfPieces(inner: string, w0: string, w1: string, w2: string, w3: string, w4: string)
    requires Split(inner, ',') == [w0, " " + w1, " " + w2, " " + w3, " " + w4]
    requires ' ' !in w0 && ' ' !in w1 && ' ' !in w2 && ' ' !in w3 && ' ' !in w4
    ensures Arguments(inner) == [w0, w1, w2, w3, w4]
  {
    RemoveSpacesNoSpace(w0);
    RemoveLeadingSpace(w1);
    RemoveLeadingSpace(w2);
    RemoveLeadingSpace(w3);
    RemoveLeadingSpace(w4);
  }

  /** A numeral with the `u` suffix is a plain argument that loses the suffix to `slice(0, -1)`. */
  lemma UnsignedLiteral(n: nat)
    ensures PlainArgument(DecimalString(n) + "u")
    ensures DropLast(DecimalString(n) + "u") == DecimalString(n)
  {
    var d := DecimalString(n);
    assert forall k :: 0 <= k < |d| ==> IsDigit(d[k]);
    assert (d + "u")[..|d|] == d;
  }

  /** A line `head(inner)tail` with a group of at least five arguments declares what those arguments say. */
  lemma ParseWrapped(head: string, inner: string, tail: string, args: seq<string>)
    requires '(' !in head && ')' !in inner
    requires Arguments(inner) == args && |args| >= 5
    ensures ParseLine(head + "(" + inner + ")" + tail)
         == Declares(Drop(args[0], 2), PixelState(ChannelIndex(args[2]), StrToNumber(DropLast(args[3])), StrToNumber(DropLast(args[4]))))
  {
    var line := head + "(" + inner + ")" + tail;
    GroupOfWrapped(head, inner, tail);
    assert line[|head| + 1..|head| + 1 + |inner|] == inner;
    assert GroupContents(line) == inner;
  }

  /** A line whose group is written as `GroupText` of plain arguments declares what they say. */
  lemma ParseGroupText(head: string, a0: string, kind: string, ch: char, ds: string, de: string, tail: string)
    requires '(' !in head
    requires PlainArgument(a0) && PlainArgument(kind) && PlainArgument(ds) && PlainArgument(de)
    requires ch != ' ' && ch != ',' && ch != ')'
    ensures ParseLine(head + "(" + GroupText(a0, kind, ch, ds, de) + ")" + tail)
         == Declares(Drop(a0, 2), PixelState(ChannelIndex([ch]), StrToNumber(DropLast(ds)), StrToNumber(DropLast(de))))
  {
    var inner := GroupText(a0, kind, ch, ds, de);
    assert ')' !in inner;
    DeclarationArguments(a0, kind, ch, ds, de);
    ParseWrapped(head, inner, tail, [a0, kind, [ch], ds, de]);
  }

  /** Writing a declaration line and parsing it gives back its name, channel and range. */
  lemma ParseDeclarationLine(head: string, tag: string, name: string, kind: string, ch: char, start: nat, end: nat, tail: string)
    requires '(' !in head
    requires |tag| == 2 && PlainArgument(tag + name) && PlainArgument(kind)
    requires ch != ' ' && ch != ',' && ch != ')'
    ensures ParseLine(DeclarationLine(head, tag, name, kind, ch, start, end, tail))
         == Declares(name, PixelState(ChannelIndex([ch]), Num(start), Num(end)))
  {
    UnsignedLiteral(start);
    UnsignedLiteral(end);
    ParseGroupText(head, tag + name, kind, ch, DecimalString(start) + "u", DecimalString(end) + "u", tail);
    assert Drop(tag + name, 2) == name;
    NumberOfDecimal(start);
    NumberOfDecimal(end);
  }
}
