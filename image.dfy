/**
 * The image-dimension store of image.go: an ordered list of (path, dimensions) entries kept
 * in two parallel slices, a cursor for iteration, and the tab-separated cache file that
 * `Save` writes and `LoadCachedImageData` reads back.
 */
module Images {
  import opened Results
  import opened Strings

  datatype ImageDimensions = ImageDimensions(width: int, height: int)

  datatype Entry = Entry(path: string, dims: ImageDimensions)

  datatype ImageError =
    | MismatchError
    | NoMoreImages
    | IndexOutOfRange
    | NotFound
    | MalformedLine(line: string)
    | InvalidWidth(field: string, line: string)
    | InvalidHeight(field: string, line: string)
    | OpenFailed
    | ReadFailed(cause: ImageError)

  /** Pairs the i-th path with the i-th dimensions. */
  function Zip(ks: seq<string>, vs: seq<ImageDimensions>): (es: seq<Entry>)
    requires |ks| == |vs|
    ensures |es| == |ks|
    ensures forall i :: 0 <= i < |ks| ==> es[i] == Entry(ks[i], vs[i])
  {
    seq(|ks|, i requires 0 <= i < |ks| => Entry(ks[i], vs[i]))
  }

  /** Position of the first occurrence of `x`. */
  function FirstIndex<T(==)>(s: seq<T>, x: T): (i: nat)
    requires x in s
    ensures i < |s| && s[i] == x && x !in s[..i]
  {
    if s[0] == x then 0
    else
      var i := 1 + FirstIndex(s[1..], x);
      assert s[..i] == [s[0]] + s[1..][..i - 1];
      i
  }

  /** Position of the last occurrence of `x`. */
  function LastIndexOf<T(==)>(s: seq<T>, x: T): (i: nat)
    requires x in s
    ensures i < |s| && s[i] == x && x !in s[i + 1..]
  {
    if s[|s| - 1] == x then |s| - 1
    else
      assert s == s[..|s| - 1] + [s[|s| - 1]];
      LastIndexOf(s[..|s| - 1], x)
  }

  lemma FirstIndexUnique<T>(s: seq<T>, x: T, i: nat)
    requires i < |s| && s[i] == x && x !in s[..i]
    ensures FirstIndex(s, x) == i
  {
    var j := FirstIndex(s, x);
    assert forall k :: 0 <= k < i ==> s[..i][k] == s[k];
    assert forall k :: 0 <= k < j ==> s[..j][k] == s[k];
  }

  /** The entries whose path is not `path`, in their original order. */
  function Without(es: seq<Entry>, path: string): (r: seq<Entry>)
    ensures forall i :: 0 <= i < |r| ==> r[i].path != path
    ensures |r| <= |es|
  {
    if es == [] then []
    else
      var r := Without(es[..|es| - 1], path);
      if es[|es| - 1].path == path then r else r + [es[|es| - 1]]
  }

  lemma ZipAppend(ks: seq<string>, vs: seq<ImageDimensions>, k: string, v: ImageDimensions)
    requires |ks| == |vs|
    ensures Zip(ks + [k], vs + [v]) == Zip(ks, vs) + [Entry(k, v)]
  {
  }

  /** What examining entry `x` adds to the filtered prefix and to the last match found so far. */
  lemma RemoveStep(keys: seq<string>, vals: seq<ImageDimensions>, x: nat, path: string)
    requires |keys| == |vals| && x < |keys|
    ensures Without(Zip(keys[..x + 1], vals[..x + 1]), path)
      == if keys[x] == path then Without(Zip(keys[..x], vals[..x]), path)
         else Without(Zip(keys[..x], vals[..x]), path) + [Entry(keys[x], vals[x])]
    ensures path in keys[..x + 1] <==> path in keys[..x] || keys[x] == path
    ensures keys[x] == path ==> LastIndexOf(keys[..x + 1], path) == x
    ensures keys[x] != path && path in keys[..x] ==>
      LastIndexOf(keys[..x + 1], path) == LastIndexOf(keys[..x], path)
  {
    assert keys[..x + 1] == keys[..x] + [keys[x]];
    assert keys[..x + 1][..x] == keys[..x];
    var z := Zip(keys[..x + 1], vals[..x + 1]);
    assert z[..x] == Zip(keys[..x], vals[..x]);
  }

  /** The entry for the last occurrence of `path` among the first `x` keys, if any. */
  ghost function LastEntry(ks: seq<string>, vs: seq<ImageDimensions>, x: nat, path: string): Option<Entry>
    requires x <= |ks| == |vs|
  {
    if path in ks[..x] then Some(Entry(path, vs[LastIndexOf(ks[..x], path)])) else None
  }

  lemma LastEntryStep(ks: seq<string>, vs: seq<ImageDimensions>, x: nat, path: string)
    requires x < |ks| == |vs|
    ensures LastEntry(ks, vs, x + 1, path)
      == if ks[x] == path then Some(Entry(path, vs[x])) else LastEntry(ks, vs, x, path)
  {
    RemoveStep(ks, vs, x, path);
  }

  /** Removing a path that no entry has changes nothing. */
  lemma {:induction false} WithoutAbsent(es: seq<Entry>, path: string)
    requires forall i :: 0 <= i < |es| ==> es[i].path != path
    ensures Without(es, path) == es
  {
    if es != [] {
      WithoutAbsent(es[..|es| - 1], path);
    }
  }

  /** Removal works entry by entry, so it keeps the relative order of what stays. */
  lemma {:induction false} WithoutConcat(a: seq<Entry>, b: seq<Entry>, path: string)
    ensures Without(a + b, path) == Without(a, path) + Without(b, path)
  {
    if b != [] {
      WithoutConcat(a, b[..|b| - 1], path);
      assert (a + b)[..|a + b| - 1] == a + b[..|b| - 1];
    } else {
      assert a + b == a;
    }
  }

  /** Removing twice is removing once. */
  lemma {:induction false} WithoutIdempotent(es: seq<Entry>, path: string)
    ensures Without(Without(es, path), path) == Without(es, path)
  {
    WithoutAbsent(Without(es, path), path);
  }

  /** Every stored entry with another path survives a removal. */
  lemma {:induction false} WithoutKeeps(es: seq<Entry>, path: string, i: nat)
    requires i < |es| && es[i].path != path
    ensures es[i] in Without(es, path)
  {
    if i < |es| - 1 {
      WithoutKeeps(es[..|es| - 1], path, i);
    }
  }

  /** The loop of `Remove`: the entries not stored under `path`, and the last one that is. */
  method FilterPath(ks: seq<string>, vs: seq<ImageDimensions>, path: string)
    returns (newKeys: seq<string>, newVals: seq<ImageDimensions>, removed: Option<Entry>)
    requires |ks| == |vs|
    ensures |newKeys| == |newVals| && Zip(newKeys, newVals) == Without(Zip(ks, vs), path)
    ensures path !in ks ==> removed == None && Zip(newKeys, newVals) == Zip(ks, vs)
    ensures path in ks ==> removed == Some(Zip(ks, vs)[LastIndexOf(ks, path)])
  {
    removed, newKeys, newVals := None, [], [];
    var x := 0;
    while x < |ks|
      invariant 0 <= x <= |ks|
      invariant |newKeys| == |newVals|
      invariant Zip(newKeys, newVals) == Without(Zip(ks[..x], vs[..x]), path)
      invariant removed == LastEntry(ks, vs, x, path)
    {
      RemoveStep(ks, vs, x, path);
      LastEntryStep(ks, vs, x, path);
      if path == ks[x] {
        removed := Some(Entry(ks[x], vs[x]));
      } else {
        ZipAppend(newKeys, newVals, ks[x], vs[x]);
        newKeys := newKeys + [ks[x]];
        newVals := newVals + [vs[x]];
      }
      x := x + 1;
    }
    FilterPathDone(ks, vs, path, newKeys, newVals, removed);
  }

  /** What the loop of `FilterPath` has built once it has seen every key. */
  lemma FilterPathDone(ks: seq<string>, vs: seq<ImageDimensions>, path: string,
                       newKeys: seq<string>, newVals: seq<ImageDimensions>, removed: Option<Entry>)
    requires |ks| == |vs| && |newKeys| == |newVals|
    requires Zip(newKeys, newVals) == Without(Zip(ks[..|ks|], vs[..|ks|]), path)
    requires removed == LastEntry(ks, vs, |ks|, path)
    ensures Zip(newKeys, newVals) == Without(Zip(ks, vs), path)
    ensures path !in ks ==> removed == None && Zip(newKeys, newVals) == Zip(ks, vs)
    ensures path in ks ==> removed == Some(Zip(ks, vs)[LastIndexOf(ks, path)])
  {
    assert ks[..|ks|] == ks && vs[..|ks|] == vs;
    if path in ks {
      assert Zip(ks, vs)[LastIndexOf(ks, path)] == Entry(path, vs[LastIndexOf(ks, path)]);
    } else {
      WithoutAbsent(Zip(ks, vs), path);
    }
  }

  class ImageData {
    var current: nat
    var keys: seq<string>
    var vals: seq<ImageDimensions>

    /** The invariant every accessor checks before acting: one dimension per path. */
    predicate Valid()
      reads this
    {
      |keys| == |vals|
    }

    /** The stored entries in index order. */
    function Entries(): seq<Entry>
      reads this
      requires Valid()
    {
      Zip(keys, vals)
    }

    /** NewImageData: an empty store with the cursor at the start. */
    constructor ()
      ensures Valid() && current == 0 && keys == [] && vals == []
    {
      current := 0;
      keys := [];
      vals := [];
    }

    /** Counts the paths alone; unlike the other accessors it does not check the invariant. */
    function Length(): (n: nat)
      reads this
      ensures n == |keys|
    {
      |keys|
    }

    function GetByIndex(idx: nat): (r: Result<Entry, ImageError>)
      reads this
      ensures !Valid() ==> r == Err(MismatchError)
      ensures Valid() && idx >= Length() ==> r == Err(IndexOutOfRange)
      ensures Valid() && idx < Length() ==> r == Ok(Entries()[idx])
    {
      if |keys| != |vals| then Err(MismatchError)
      else if idx >= |keys| then Err(IndexOutOfRange)
      else Ok(Entry(keys[idx], vals[idx]))
    }

    /** Appends one entry at the end; a path already present is stored again. */
    method Add(path: string, dims: ImageDimensions) returns (err: Option<ImageError>)
      modifies this`keys, this`vals
      ensures !old(Valid()) ==> err == Some(MismatchError) && keys == old(keys) && vals == old(vals)
      ensures old(Valid()) ==> err == None && keys == old(keys) + [path] && vals == old(vals) + [dims]
      ensures old(Valid()) ==> Valid() && Entries() == old(Entries()) + [Entry(path, dims)]
      ensures old(Valid()) ==> Length() == old(Length()) + 1 && GetByIndex(old(Length())) == Ok(Entry(path, dims))
      ensures old(Valid()) ==> forall j :: 0 <= j < old(Length()) ==> GetByIndex(j) == old(GetByIndex(j))
    {
      if |keys| != |vals| {
        return Some(MismatchError);
      }
      keys := keys + [path];
      vals := vals + [dims];
      return None;
    }

    /** The dimensions of the first entry stored under `path`. */
    method GetByPath(path: string) returns (r: Result<ImageDimensions, ImageError>)
      ensures !Valid() ==> r == Err(MismatchError)
      ensures Valid() && path !in keys ==> r == Err(NotFound)
      ensures Valid() && path in keys ==> r == Ok(vals[FirstIndex(keys, path)])
    {
      if |keys| != |vals| {
        return Err(MismatchError);
      }
      var x := 0;
      while x < |keys|
        invariant 0 <= x <= |keys|
        invariant path !in keys[..x]
      {
        if keys[x] == path {
          FirstIndexUnique(keys, path, x);
          return Ok(vals[x]);
        }
        assert keys[..x + 1] == keys[..x] + [keys[x]];
        x := x + 1;
      }
      assert keys[..x] == keys;
      return Err(NotFound);
    }

    /** Drops every entry stored under `path` and returns the last one dropped. */
    method Remove(path: string) returns (r: Result<Option<Entry>, ImageError>)
      modifies this`keys, this`vals
      ensures !old(Valid()) ==> r == Err(MismatchError) && keys == old(keys) && vals == old(vals)
      ensures old(Valid()) ==> Valid() && Entries() == Without(old(Entries()), path)
      ensures old(Valid()) && path !in old(keys) ==> r == Ok(None) && Entries() == old(Entries())
      ensures old(Valid()) && path in old(keys) ==>
                r == Ok(Some(old(Entries())[LastIndexOf(old(keys), path)]))
    {
      if |keys| != |vals| {
        return Err(MismatchError);
      }
      var newKeys, newVals, removed := FilterPath(keys, vals, path);
      keys := newKeys;
      vals := newVals;
      return Ok(removed);
    }

    /** Yields the entry under the cursor and moves the cursor on by one. */
    method Next() returns (r: Result<Entry, ImageError>)
      modifies this`current
      ensures !Valid() ==> r == Err(MismatchError) && current == old(current)
      ensures Valid() && old(current) >= Length() ==> r == Err(NoMoreImages) && current == old(current)
      ensures Valid() && old(current) < Length() ==>
                r == Ok(Entries()[old(current)]) && current == old(current) + 1
    {
      if |keys| != |vals| {
        return Err(MismatchError);
      }
      if current >= |keys| {
        return Err(NoMoreImages);
      }
      r := Ok(Entry(keys[current], vals[current]));
      current := current + 1;
    }

    /** Appends all of `n`'s entries, in `n`'s order, after this store's own; `n` may be this store. */
    method Merge(n: ImageData) returns (err: Option<ImageError>)
      modifies this`keys, this`vals
      ensures !(old(Valid()) && old(n.Valid())) ==>
                err == Some(MismatchError) && keys == old(keys) && vals == old(vals)
      ensures old(Valid()) && old(n.Valid()) ==>
                err == None && Valid() && Entries() == old(Entries()) + old(n.Entries())
      ensures old(Valid()) && old(n.Valid()) ==> Length() == old(Length()) + old(n.Length())
      ensures n != this ==> n.keys == old(n.keys) && n.vals == old(n.vals)
    {
      if |keys| != |vals| {
        return Some(MismatchError);
      }
      if |n.keys| != |n.vals| {
        return Some(MismatchError);
      }
      ghost var start := Entries();
      ghost var added := n.Entries();
      var maxlen := n.Length();
      var x := 0;
      while x < maxlen
        invariant 0 <= x <= maxlen == |added|
        invariant Valid() && Entries() == start + added[..x]
        invariant n.Valid() && n.Length() >= maxlen && n.Entries()[..maxlen] == added
        invariant n != this ==> n.keys == old(n.keys) && n.vals == old(n.vals)
      {
        assert n.Entries()[x] == added[x];
        // GetByIndex cannot fail for x < maxlen, so the "Image merge error" return is never taken.
        var e := n.GetByIndex(x);
        var _ := Add(e.value.path, e.value.dims);
        assert added[..x + 1] == added[..x] + [added[x]];
        x := x + 1;
      }
      assert added[..x] == added;
      return None;
    }

    /** The text `Save` writes: one line per stored path, read against the parallel dimensions. */
    function SaveText(): string
      reads this
      requires |keys| <= |vals|
    {
      Lines(Zip(keys, vals[..|keys|]))
    }
  }

  // ---------------------------------------------------------------- The cache file format

  /** One line as `Save` writes it, without its newline: path, width, height, tab-separated. */
  function SavedLine(e: Entry): string
  {
    e.path + "\t" + FormatInt(e.dims.width) + "\t" + FormatInt(e.dims.height)
  }

  function Lines(es: seq<Entry>): string
  {
    if es == [] then "" else SavedLine(es[0]) + "\n" + Lines(es[1..])
  }

  predicate IsUint32Decimal(s: string)
  {
    s != [] && (forall i :: 0 <= i < |s| ==> IsDigit(s[i])) && DigitsValue(s) < Uint32Limit
  }

  /** `parseLine`, with the height error naming the height field. */
  function ParseLine(line: string): (r: Result<Entry, ImageError>)
    ensures r.Ok? <==> Count(line, '\t') == 2 && IsUint32Decimal(Split(line, '\t')[1]) && IsUint32Decimal(Split(line, '\t')[2])
    ensures r.Ok? ==> '\t' !in r.value.path
    ensures r.Ok? ==>
      r.value.path == Split(line, '\t')[0]
      && r.value.dims == ImageDimensions(DigitsValue(Split(line, '\t')[1]), DigitsValue(Split(line, '\t')[2]))
    ensures r.Ok? ==> 0 <= r.value.dims.width < Uint32Limit && 0 <= r.value.dims.height < Uint32Limit
    ensures r.Ok? ==> Join([r.value.path, Split(line, '\t')[1], Split(line, '\t')[2]], '\t') == line
    ensures Count(line, '\t') != 2 ==> r == Err(MalformedLine(line))
    ensures Count(line, '\t') == 2 && !IsUint32Decimal(Split(line, '\t')[1]) ==>
      r == Err(InvalidWidth(Split(line, '\t')[1], line))
    ensures Count(line, '\t') == 2 && IsUint32Decimal(Split(line, '\t')[1]) && !IsUint32Decimal(Split(line, '\t')[2]) ==>
      r == Err(InvalidHeight(Split(line, '\t')[2], line))
    ensures r.Err? && r.error.InvalidHeight? ==> !IsUint32Decimal(r.error.field) && r.error.field == Split(line, '\t')[2]
  {
    var items := Split(line, '\t');
    if |items| != 3 then Err(MalformedLine(line))
    else match ParseUint(items[1], Uint32Limit)
      case None => Err(InvalidWidth(items[1], line))
      case Some(w) =>
        match ParseUint(items[2], Uint32Limit)
        case None => Err(InvalidHeight(items[2], line))
        case Some(h) =>
          JoinSplit(line, '\t');
          assert items == [items[0], items[1], items[2]];
          Ok(Entry(items[0], ImageDimensions(w, h)))
  }

  /** `parseLine` as written: its height error quotes the width field. */
  function ParseLineAsWritten(line: string): (r: Result<Entry, ImageError>)
    ensures ParseLine(line).Ok? ==> r == ParseLine(line)
    ensures r.Err? <==> ParseLine(line).Err?
  {
    match ParseLine(line)
    case Err(InvalidHeight(_, l)) => Err(InvalidHeight(Split(line, '\t')[1], l))
    case other => other
  }

  lemma SplitSample()
    ensures Split("a\t1\tx", '\t') == ["a", "1", "x"]
  {
    SplitAtSep("a", "1\tx", '\t');
    SplitAtSep("1", "x", '\t');
    SplitWithoutSep("x", '\t');
    assert "a\t1\tx" == "a" + ['\t'] + ("1" + ['\t'] + "x");
  }

  /** A line with a good width and a bad height: the message from the code as written quotes the width. */
  lemma HeightErrorQuotesWidth()
    ensures ParseLineAsWritten("a\t1\tx") == Err(InvalidHeight("1", "a\t1\tx"))
    ensures ParseLine("a\t1\tx") == Err(InvalidHeight("x", "a\t1\tx"))
  {
    SplitSample();
    assert ParseUint("1", Uint32Limit).Some?;
    assert !IsDigit("x"[0]);
    assert ParseUint("x", Uint32Limit) == None;
  }

  /** An entry whose line survives the loader: a path with no tab or newline that does not
      start with white space, and dimensions that fit in 32 unsigned bits. */
  predicate Savable(e: Entry)
  {
    e.path != [] && !IsSpace(e.path[0]) && '\t' !in e.path && '\n' !in e.path
    && 0 <= e.dims.width < Uint32Limit && 0 <= e.dims.height < Uint32Limit
  }

  /** `parseLine` reads back the line `Save` writes, for any path without a tab. */
  lemma ParseSavedLine(e: Entry)
    requires '\t' !in e.path
    requires 0 <= e.dims.width < Uint32Limit && 0 <= e.dims.height < Uint32Limit
    ensures ParseLine(SavedLine(e)) == Ok(e)
  {
    var w, h := FormatNat(e.dims.width), FormatNat(e.dims.height);
    forall c | c in w ensures c != '\t' {
      var i :| 0 <= i < |w| && w[i] == c;
    }
    forall c | c in h ensures c != '\t' {
      var i :| 0 <= i < |h| && h[i] == c;
    }
    JoinThree(e.path, w, h, '\t');
    SplitJoin([e.path, w, h], '\t');
    ParseFormat(e.dims.width, Uint32Limit);
    ParseFormat(e.dims.height, Uint32Limit);
  }

  /** A width or height that is negative is written with a minus sign, and the line is then refused. */
  lemma NegativeDimensionRefused(e: Entry)
    requires '\t' !in e.path
    requires e.dims.width < 0 || e.dims.height < 0
    ensures ParseLine(SavedLine(e)).Err?
  {
    var w, h := FormatInt(e.dims.width), FormatInt(e.dims.height);
    forall c | c in w ensures c != '\t' {
      var i :| 0 <= i < |w| && w[i] == c;
      if e.dims.width < 0 && i > 0 { assert w[i] == FormatNat(-e.dims.width)[i - 1]; }
    }
    forall c | c in h ensures c != '\t' {
      var i :| 0 <= i < |h| && h[i] == c;
      if e.dims.height < 0 && i > 0 { assert h[i] == FormatNat(-e.dims.height)[i - 1]; }
    }
    JoinThree(e.path, w, h, '\t');
    SplitJoin([e.path, w, h], '\t');
    if e.dims.width < 0 { assert !IsDigit(w[0]); } else { assert !IsDigit(h[0]); }
  }

  // ---------------------------------------------------------------- Loading the cache file

  datatype ReadResult = ReadResult(line: string, rest: string, eof: bool)

  /** `bufio.Reader.ReadString('\n')` on the unread text: the next line with its newline, or,
      when no newline is left, whatever text remains together with io.EOF. */
  function ReadString(s: string): (r: ReadResult)
    ensures !r.eof ==> r.line + r.rest == s && r.line != [] && r.line[|r.line| - 1] == '\n'
    ensures r.eof <==> '\n' !in s
    ensures r.eof ==> r.line == s && r.rest == []
    ensures s != [] ==> |r.rest| < |s|
  {
    if '\n' in s then
      var i := FirstIndex(s, '\n');
      assert s[..i + 1] + s[i + 1..] == s;
      ReadResult(s[..i + 1], s[i + 1..], false)
    else ReadResult(s, [], true)
  }

  lemma ReadStringLine(line: string, rest: string)
    requires line != [] && line[|line| - 1] == '\n' && '\n' !in line[..|line| - 1]
    ensures ReadString(line + rest) == ReadResult(line, rest, false)
  {
    var s := line + rest;
    assert s[..|line| - 1] == line[..|line| - 1];
    FirstIndexUnique(s, '\n', |line| - 1);
    assert s[..|line|] == line;
  }

  datatype LoadOutcome =
    | Loaded(entries: seq<Entry>)
    | Failed(error: ImageError)
      /** The loader's loop never finishes. */
    | Spins

  /** The loop of `LoadCachedImageData` as written, from the line just read on, with `acc`
      the entries added so far. */
  function LoadFrom(r: ReadResult, acc: seq<Entry>): LoadOutcome
    decreases |r.rest|, if r.eof then 0 else 1
  {
    if r.eof then Loaded(acc)
    else
      var line := TrimSpace(r.line);
      if line == [] then Spins
      else match ParseLine(line)
        case Err(e) => Failed(ReadFailed(e))
        case Ok(e) => LoadFrom(ReadString(r.rest), acc + [e])
  }

  /** One round of the loader's loop. */
  lemma LoadFromStep(r: ReadResult, acc: seq<Entry>, line: string, parsed: Result<Entry, ImageError>)
    requires !r.eof && line == TrimSpace(r.line) && (line != [] ==> parsed == ParseLine(line))
    ensures line == [] ==> LoadFrom(r, acc) == Spins
    ensures line != [] && parsed.Err? ==> LoadFrom(r, acc) == Failed(ReadFailed(parsed.error))
    ensures line != [] && parsed.Ok? ==> LoadFrom(r, acc) == LoadFrom(ReadString(r.rest), acc + [parsed.value])
  {
  }

  /** What `LoadCachedImageData` does with a file's text (None: the file cannot be opened). */
  function LoadSpec(file: Option<string>): LoadOutcome
  {
    match file
    case None => Failed(OpenFailed)
    case Some(text) => LoadFrom(ReadString(text), [])
  }

  /** `LoadCachedImageData` over the file's text. */
  method LoadCachedImageData(file: Option<string>) returns (data: ImageData?, outcome: LoadOutcome)
    ensures outcome == LoadSpec(file)
    ensures outcome.Loaded? <==> data != null
    ensures data != null ==> fresh(data) && data.Valid() && data.current == 0 && data.Entries() == outcome.entries
  {
    if file.None? {
      return null, Failed(OpenFailed);
    }
    var d := new ImageData();
    var r := ReadString(file.value);
    while !r.eof
      invariant fresh(d) && d.Valid() && d.current == 0
      invariant LoadFrom(r, d.Entries()) == LoadSpec(file)
      decreases |r.rest|, if r.eof then 0 else 1
    {
      var line := TrimSpace(r.line);
      if line == [] {
        // A blank line is skipped without reading the next one, so the loop never ends.
        LoadFromStep(r, d.Entries(), line, Err(MismatchError));
        return null, Spins;
      }
      var parsed := ParseLine(line);
      LoadFromStep(r, d.Entries(), line, parsed);
      if parsed.Err? {
        // The parse error stays in `err`: the loop stops and the load fails as a read error.
        return null, Failed(ReadFailed(parsed.error));
      }
      // Add cannot fail on a store that was built by Add alone.
      var _ := d.Add(parsed.value.path, parsed.value.dims);
      r := ReadString(r.rest);
    }
    return d, Loaded(d.Entries());
  }

  /** Decimal renderings hold no line break. */
  lemma DigitsNoNewline(n: nat)
    ensures '\n' !in FormatNat(n) && '\n' !in FormatInt(n)
  {
    var d := FormatNat(n);
    forall i | 0 <= i < |d| ensures d[i] != '\n' {
      assert IsDigit(d[i]);
    }
  }

  lemma SavedLineNoNewline(e: Entry)
    requires Savable(e)
    ensures '\n' !in SavedLine(e)
  {
    DigitsNoNewline(e.dims.width);
    DigitsNoNewline(e.dims.height);
    var w, h := FormatInt(e.dims.width), FormatInt(e.dims.height);
    assert SavedLine(e) == e.path + "\t" + w + "\t" + h;
  }

  lemma SavedLineShape(e: Entry)
    requires Savable(e)
    ensures TrimSpace(SavedLine(e) + "\n") == SavedLine(e)
    ensures '\n' !in SavedLine(e)
    ensures ReadString(SavedLine(e) + "\n" + Lines([])) == ReadResult(SavedLine(e) + "\n", [], false)
  {
    var s := SavedLine(e);
    var h := FormatInt(e.dims.height);
    assert s[|s| - 1] == h[|h| - 1];
    assert s[0] == e.path[0];
    TrimSpaceOfLine(s);
    SavedLineNoNewline(e);
    assert (s + "\n")[..|s + "\n"| - 1] == s;
    ReadStringLine(s + "\n", []);
  }

  /** The reader hands a saved line to the parser, which gives the entry back. */
  lemma LineStep(e: Entry, more: string)
    requires Savable(e)
    ensures ReadString(SavedLine(e) + "\n" + more) == ReadResult(SavedLine(e) + "\n", more, false)
    ensures TrimSpace(SavedLine(e) + "\n") == SavedLine(e)
    ensures ParseLine(SavedLine(e)) == Ok(e)
  {
    SavedLineShape(e);
    var line := SavedLine(e) + "\n";
    assert line[..|line| - 1] == SavedLine(e);
    ReadStringLine(line, more);
    ParseSavedLine(e);
  }

  lemma LoadStep(e: Entry, more: string, acc: seq<Entry>)
    requires Savable(e)
    ensures LoadFrom(ReadString(SavedLine(e) + "\n" + more), acc) == LoadFrom(ReadString(more), acc + [e])
  {
    LineStep(e, more);
  }

  lemma Assoc<T>(a: seq<T>, b: seq<T>, c: seq<T>)
    ensures a + b + c == a + (b + c)
  {
  }

  lemma EmptyUnit<T>(a: seq<T>)
    ensures a + [] == a && [] + a == a
  {
  }

  lemma AppendHead<T>(acc: seq<T>, es: seq<T>)
    requires es != []
    ensures acc + [es[0]] + es[1..] == acc + es
  {
    assert es == [es[0]] + es[1..];
  }

  /** Saved lines are consumed one by one before whatever follows them is read. */
  lemma {:induction false} LoadFromPrefix(es: seq<Entry>, more: string, acc: seq<Entry>)
    requires forall i :: 0 <= i < |es| ==> Savable(es[i])
    ensures LoadFrom(ReadString(Lines(es) + more), acc) == LoadFrom(ReadString(more), acc + es)
  {
    if es == [] {
      assert Lines(es) + more == more;
      assert acc + es == acc;
    } else {
      var rest := Lines(es[1..]) + more;
      assert Lines(es) + more == SavedLine(es[0]) + "\n" + rest;
      var afterFirst := LoadFrom(ReadString(rest), acc + [es[0]]);
      assert LoadFrom(ReadString(Lines(es) + more), acc) == afterFirst by {
        LoadStep(es[0], rest, acc);
      }
      assert afterFirst == LoadFrom(ReadString(more), acc + [es[0]] + es[1..]) by {
        LoadFromPrefix(es[1..], more, acc + [es[0]]);
      }
      AppendHead(acc, es);
    }
  }

  /** The loader as written reads back what `Save` wrote; text after the last newline is ignored. */
  lemma LoadSavedText(es: seq<Entry>, tail: string)
    requires forall i :: 0 <= i < |es| ==> Savable(es[i])
    requires '\n' !in tail
    ensures LoadSpec(Some(Lines(es) + tail)) == Loaded(es)
  {
    LoadFromPrefix(es, tail, []);
    assert [] + es == es;
  }

  /** Loading the text of a saved store gives its entries back. */
  lemma LoadAfterSave(d: ImageData)
    requires d.Valid()
    requires forall i :: 0 <= i < |d.keys| ==> Savable(d.Entries()[i])
    ensures LoadSpec(Some(d.SaveText())) == Loaded(d.Entries())
  {
    assert d.vals[..|d.keys|] == d.vals;
    LoadSavedText(d.Entries(), "");
    assert d.SaveText() + "" == d.SaveText();
  }

  /** A blank line makes the loader as written spin forever. */
  lemma BlankLineSpins(es: seq<Entry>, rest: string)
    requires forall i :: 0 <= i < |es| ==> Savable(es[i])
    ensures LoadSpec(Some(Lines(es) + "\n" + rest)) == Spins
  {
    var text := Lines(es) + "\n" + rest;
    assert text == Lines(es) + ("\n" + rest) by { Assoc(Lines(es), "\n", rest); }
    assert LoadSpec(Some(text)) == LoadFrom(ReadString("\n" + rest), [] + es) by {
      LoadFromPrefix(es, "\n" + rest, []);
    }
    assert LoadFrom(ReadString("\n" + rest), [] + es) == Spins by {
      ReadStringLine("\n", rest);
      TrimSpaceBlank();
    }
  }

  /** A malformed line makes the loader as written fail as a whole. */
  lemma MalformedLineFails(es: seq<Entry>, bad: string, rest: string)
    requires forall i :: 0 <= i < |es| ==> Savable(es[i])
    requires bad != [] && !IsSpace(bad[0]) && !IsSpace(bad[|bad| - 1]) && '\n' !in bad
    requires ParseLine(bad).Err?
    ensures LoadSpec(Some(Lines(es) + bad + "\n" + rest)) == Failed(ReadFailed(ParseLine(bad).error))
  {
    var line := bad + "\n";
    var text := Lines(es) + bad + "\n" + rest;
    assert text == Lines(es) + (line + rest) by {
      Assoc(Lines(es) + bad, "\n", rest);
      Assoc(Lines(es), bad, "\n" + rest);
      Assoc(bad, "\n", rest);
    }
    assert LoadSpec(Some(text)) == LoadFrom(ReadString(line + rest), [] + es) by {
      LoadFromPrefix(es, line + rest, []);
    }
    assert LoadFrom(ReadString(line + rest), [] + es) == Failed(ReadFailed(ParseLine(bad).error)) by {
      assert line[..|line| - 1] == bad;
      ReadStringLine(line, rest);
      TrimSpaceOfLine(bad);
    }
  }

  // ---------------------------------------------------------------- The loader as intended

  lemma PrefixOfExtension<T>(s: seq<T>, acc: seq<T>, x: T)
    requires |s| >= |acc| + 1 && s[..|acc| + 1] == acc + [x]
    ensures s[..|acc|] == acc
  {
    assert s[..|acc|] == s[..|acc| + 1][..|acc|];
  }

  /** The loop as its comments describe it: blank and malformed lines are skipped. */
  function LoadTolerantFrom(r: ReadResult, acc: seq<Entry>): (o: LoadOutcome)
    ensures o.Loaded? && |o.entries| >= |acc| && o.entries[..|acc|] == acc
    decreases |r.rest|, if r.eof then 0 else 1
  {
    if r.eof then Loaded(acc)
    else
      var line := TrimSpace(r.line);
      if line == [] then LoadTolerantFrom(ReadString(r.rest), acc)
      else match ParseLine(line)
        case Err(_) => LoadTolerantFrom(ReadString(r.rest), acc)
        case Ok(e) =>
          var o := LoadTolerantFrom(ReadString(r.rest), acc + [e]);
          PrefixOfExtension(o.entries, acc, e);
          o
  }

  /** The corrected loader: a readable file always loads, whatever lines it holds. */
  function LoadTolerant(file: Option<string>): (o: LoadOutcome)
    ensures file.None? ==> o == Failed(OpenFailed)
    ensures file.Some? ==> o.Loaded?
  {
    match file
    case None => Failed(OpenFailed)
    case Some(text) => LoadTolerantFrom(ReadString(text), [])
  }

  /** Where the loader as written succeeds, the corrected one gives the same entries. */
  lemma {:induction false} TolerantAgrees(r: ReadResult, acc: seq<Entry>)
    requires LoadFrom(r, acc).Loaded?
    ensures LoadTolerantFrom(r, acc) == LoadFrom(r, acc)
    decreases |r.rest|, if r.eof then 0 else 1
  {
    if !r.eof {
      var line := TrimSpace(r.line);
      var e := ParseLine(line).value;
      TolerantAgrees(ReadString(r.rest), acc + [e]);
    }
  }

  /** The corrected loader skips a blank line and reads on. */
  lemma TolerantSkipsBlank(es: seq<Entry>, more: seq<Entry>)
    requires forall i :: 0 <= i < |es| ==> Savable(es[i])
    requires forall i :: 0 <= i < |more| ==> Savable(more[i])
    ensures LoadTolerant(Some(Lines(es) + "\n" + Lines(more))) == Loaded(es + more)
  {
    var text := Lines(es) + "\n" + Lines(more);
    assert text == Lines(es) + ("\n" + Lines(more)) by { Assoc(Lines(es), "\n", Lines(more)); }
    EmptyUnit(es);
    EmptyUnit(Lines(more));
    assert LoadTolerant(Some(text)) == LoadTolerantFrom(ReadString("\n" + Lines(more)), [] + es) by {
      TolerantPrefix(es, "\n" + Lines(more), []);
    }
    assert LoadTolerantFrom(ReadString("\n" + Lines(more)), [] + es) == LoadTolerantFrom(ReadString(Lines(more) + ""), es) by {
      ReadStringLine("\n", Lines(more));
      TrimSpaceBlank();
    }
    assert LoadTolerantFrom(ReadString(Lines(more) + ""), es) == LoadTolerantFrom(ReadString(""), es + more) by {
      TolerantPrefix(more, "", es);
    }
  }

  /** The corrected loader skips a malformed line and reads on. */
  lemma TolerantSkipsMalformed(es: seq<Entry>, bad: string, more: seq<Entry>)
    requires forall i :: 0 <= i < |es| ==> Savable(es[i])
    requires forall i :: 0 <= i < |more| ==> Savable(more[i])
    requires bad != [] && !IsSpace(bad[0]) && !IsSpace(bad[|bad| - 1]) && '\n' !in bad
    requires ParseLine(bad).Err?
    ensures LoadTolerant(Some(Lines(es) + bad + "\n" + Lines(more))) == Loaded(es + more)
  {
    var line := bad + "\n";
    var text := Lines(es) + bad + "\n" + Lines(more);
    assert text == Lines(es) + (line + Lines(more)) by {
      Assoc(Lines(es) + bad, "\n", Lines(more));
      Assoc(Lines(es), bad, "\n" + Lines(more));
      Assoc(bad, "\n", Lines(more));
    }
    EmptyUnit(es);
    EmptyUnit(Lines(more));
    assert LoadTolerant(Some(text)) == LoadTolerantFrom(ReadString(line + Lines(more)), [] + es) by {
      TolerantPrefix(es, line + Lines(more), []);
    }
    assert LoadTolerantFrom(ReadString(line + Lines(more)), [] + es) == LoadTolerantFrom(ReadString(Lines(more) + ""), es) by {
      assert line[..|line| - 1] == bad;
      ReadStringLine(line, Lines(more));
      TrimSpaceOfLine(bad);
    }
    assert LoadTolerantFrom(ReadString(Lines(more) + ""), es) == LoadTolerantFrom(ReadString(""), es + more) by {
      TolerantPrefix(more, "", es);
    }
  }

  /** The corrected loader consumes saved lines exactly as the loader as written does. */
  lemma {:induction false} TolerantPrefix(es: seq<Entry>, more: string, acc: seq<Entry>)
    requires forall i :: 0 <= i < |es| ==> Savable(es[i])
    ensures LoadTolerantFrom(ReadString(Lines(es) + more), acc) == LoadTolerantFrom(ReadString(more), acc + es)
  {
    if es == [] {
      assert Lines(es) + more == more;
      assert acc + es == acc;
    } else {
      var rest := Lines(es[1..]) + more;
      assert Lines(es) + more == SavedLine(es[0]) + "\n" + rest;
      var afterFirst := LoadTolerantFrom(ReadString(rest), acc + [es[0]]);
      assert LoadTolerantFrom(ReadString(Lines(es) + more), acc) == afterFirst by {
        LineStep(es[0], rest);
      }
      assert afterFirst == LoadTolerantFrom(ReadString(more), acc + [es[0]] + es[1..]) by {
        TolerantPrefix(es[1..], more, acc + [es[0]]);
      }
      AppendHead(acc, es);
    }
  }
}
