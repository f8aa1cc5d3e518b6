/** The Cloudinary delivery-URL rewriter of src/utils/cloudinary.js: it
    splices transformation directives (`w_800`, `c_limit`, ...) into a
    Cloudinary URL right after its `upload` path segment, without any
    network access. */
module Cloudinary {
  import opened Js

  const CloudinaryBaseUrl: string := "https://res.cloudinary.com"

  /** The path segment after which directives are inserted. */
  const UploadSegment: string := "upload"

  /** The URL path separator, as `split('/')` and `join('/')` use it. */
  const Slash: string := "/"

  /** The widths used when the caller gives none. */
  const DefaultWidths: seq<int> := [320, 640, 960, 1280]

  /** The options object `{width, height, crop, quality, format}`; a field the
      caller leaves out is `Undefined`. */
  datatype Options = Options(width: JsValue, height: JsValue, crop: JsValue, quality: JsValue, format: JsValue)

  /** The empty options object `{}`, the default argument. */
  const NoOptions: Options := Options(Undefined, Undefined, Undefined, Undefined, Undefined)

  /** A directive before rendering: its two-character code and its value. */
  datatype Directive = Directive(code: string, value: JsValue)

  /** A destructuring default: it replaces `undefined` only. */
  function OrDefault(v: JsValue, fallback: string): (r: JsValue)
    ensures Truthy(r) <==> Truthy(v) || (v.Undefined? && fallback != "")
  {
    if v.Undefined? then Str(fallback) else v
  }

  /** The five candidate directives in their fixed order, after the defaults
      `crop = 'limit'`, `quality = 'auto'`, `format = 'auto'`. */
  function Directives(o: Options): seq<Directive>
  {
    [ Directive("w_", o.width),
      Directive("h_", o.height),
      Directive("c_", OrDefault(o.crop, "limit")),
      Directive("q_", OrDefault(o.quality, "auto")),
      Directive("f_", OrDefault(o.format, "auto")) ]
  }

  /** The rendered token, `${code}${value}`. */
  function Token(d: Directive): string
  {
    d.code + ToStr(d.value)
  }

  /** The position of a token's code letter in the order w, h, c, q, f. */
  function Rank(c: char): nat
  {
    if c == 'w' then 0
    else if c == 'h' then 1
    else if c == 'c' then 2
    else if c == 'q' then 3
    else if c == 'f' then 4
    else 5
  }

  /** The conditional push of one directive's token. */
  function Emit(d: Directive): seq<string>
  {
    Pick(Token(d), Truthy(d.value))
  }

  /** The `transformations` array: one token per truthy directive. */
  function Transformations(o: Options): (t: seq<string>)
    ensures |t| <= 5
  {
    var ds := Directives(o);
    Emit(ds[0]) + Emit(ds[1]) + Emit(ds[2]) + Emit(ds[3]) + Emit(ds[4])
  }

  /** The same array built the way the source builds it, by conditional
      pushes onto an initially empty array. */
  method BuildTransformations(o: Options) returns (transformations: seq<string>)
    ensures transformations == Transformations(o)
  {
    var crop := OrDefault(o.crop, "limit");
    var quality := OrDefault(o.quality, "auto");
    var format := OrDefault(o.format, "auto");
    ghost var ds := Directives(o);
    transformations := [];
    if Truthy(o.width) { transformations := transformations + ["w_" + ToStr(o.width)]; }
    assert transformations == Emit(ds[0]);
    if Truthy(o.height) { transformations := transformations + ["h_" + ToStr(o.height)]; }
    assert transformations == Emit(ds[0]) + Emit(ds[1]);
    if Truthy(crop) { transformations := transformations + ["c_" + ToStr(crop)]; }
    assert transformations == Emit(ds[0]) + Emit(ds[1]) + Emit(ds[2]);
    if Truthy(quality) { transformations := transformations + ["q_" + ToStr(quality)]; }
    assert transformations == Emit(ds[0]) + Emit(ds[1]) + Emit(ds[2]) + Emit(ds[3]);
    if Truthy(format) { transformations := transformations + ["f_" + ToStr(format)]; }
  }

  /** The token each directive would contribute. */
  ghost function Tokens(ds: seq<Directive>): (toks: seq<string>)
    ensures |toks| == |ds|
  {
    seq(|ds|, k requires 0 <= k < |ds| => Token(ds[k]))
  }

  /** Which directives are truthy, and so contribute their token. */
  ghost function Live(ds: seq<Directive>): (live: seq<bool>)
    ensures |live| == |ds|
  {
    seq(|ds|, k requires 0 <= k < |ds| => Truthy(ds[k].value))
  }

  /** The candidate tokens are non-empty and their letters rank 0, 1, 2, ...
      in list order. */
  ghost predicate RanksInOrder(toks: seq<string>)
  {
    forall k :: 0 <= k < |toks| ==> |toks[k]| > 0 && Rank(toks[k][0]) == k
  }

  /** Every token of `t` is the live candidate among the first `n` that its
      letter names. */
  ghost predicate TokensFromLive(t: seq<string>, toks: seq<string>, live: seq<bool>, n: nat)
  {
    forall j :: 0 <= j < |t| ==>
      |t[j]| > 0 && Rank(t[j][0]) < n && n <= |toks| == |live| &&
      t[j] == toks[Rank(t[j][0])] && live[Rank(t[j][0])]
  }

  /** The tokens of `t` appear in directive order, each at most once. */
  ghost predicate TokensInOrder(t: seq<string>)
  {
    forall j, k :: 0 <= j < k < |t| && |t[j]| > 0 && |t[k]| > 0 ==> Rank(t[j][0]) < Rank(t[k][0])
  }

  /** Every live candidate among the first `n` has its token in `t`. */
  ghost predicate LiveHaveTokens(t: seq<string>, toks: seq<string>, live: seq<bool>, n: nat)
  {
    forall k :: 0 <= k < n && k < |toks| && k < |live| && live[k] ==> toks[k] in t
  }

  /** `t` holds exactly the tokens of the live candidates among the first
      `n`, in candidate order. */
  ghost predicate Picks(t: seq<string>, toks: seq<string>, live: seq<bool>, n: nat)
  {
    TokensFromLive(t, toks, live, n) && TokensInOrder(t) && LiveHaveTokens(t, toks, live, n)
  }

  /** One conditional push: the candidate if it is live, nothing otherwise. */
  function Pick(tok: string, live: bool): seq<string>
  {
    if live then [tok] else []
  }

  /** The array after the conditional pushes of the first `n` candidates. */
  function PickUpTo(toks: seq<string>, live: seq<bool>, n: nat): seq<string>
    requires n <= |toks| == |live|
  {
    if n == 0 then [] else PickUpTo(toks, live, n - 1) + Pick(toks[n - 1], live[n - 1])
  }

  /** One conditional push keeps the array exactly the tokens pushed so far. */
  lemma PickStep(t: seq<string>, t': seq<string>, toks: seq<string>, live: seq<bool>, n: nat)
    requires RanksInOrder(toks) && n < |toks| == |live|
    requires Picks(t, toks, live, n) && t' == t + Pick(toks[n], live[n])
    ensures Picks(t', toks, live, n + 1)
  {
    forall j | 0 <= j < |t'|
      ensures |t'[j]| > 0 && Rank(t'[j][0]) < n + 1 && n + 1 <= |toks| == |live|
      ensures t'[j] == toks[Rank(t'[j][0])] && live[Rank(t'[j][0])]
    {
      if j >= |t| { assert t'[j] == toks[n]; }
    }
    assert TokensFromLive(t', toks, live, n + 1);
    assert TokensInOrder(t');
    assert LiveHaveTokens(t', toks, live, n + 1);
  }

  lemma {:induction false} PickUpToSpec(toks: seq<string>, live: seq<bool>, n: nat)
    requires RanksInOrder(toks) && n <= |toks| == |live|
    ensures Picks(PickUpTo(toks, live, n), toks, live, n)
  {
    if n > 0 {
      PickUpToSpec(toks, live, n - 1);
      PickStep(PickUpTo(toks, live, n - 1), PickUpTo(toks, live, n), toks, live, n - 1);
    }
  }

  /** Once every candidate is processed, a candidate's token is present
      exactly when it is live. */
  lemma PickedIffLive(t: seq<string>, toks: seq<string>, live: seq<bool>)
    requires RanksInOrder(toks) && |live| == |toks|
    requires Picks(t, toks, live, |toks|)
    ensures forall k :: 0 <= k < |toks| ==> (toks[k] in t <==> live[k])
  {
    forall k | 0 <= k < |toks| && toks[k] in t
      ensures live[k]
    {
      var j :| 0 <= j < |t| && t[j] == toks[k];
    }
  }

  /** The transformations are exactly the tokens of the truthy directives, in
      the fixed order w, h, c, q, f; a falsy value (width 0, an empty or null
      crop) leaves its token out, and a default applies only to an undefined
      field. */
  lemma TransformationsSpec(o: Options)
    ensures Picks(Transformations(o), Tokens(Directives(o)), Live(Directives(o)), 5)
    ensures forall k :: 0 <= k < 5 ==>
      (Token(Directives(o)[k]) in Transformations(o) <==> Truthy(Directives(o)[k].value))
  {
    var ds := Directives(o);
    var toks, live := Tokens(ds), Live(ds);
    DirectiveRanks(o);
    TransformationsArePicks(o);
    PickUpToSpec(toks, live, 5);
    PickedIffLive(Transformations(o), toks, live);
    forall k | 0 <= k < 5
      ensures Token(ds[k]) in Transformations(o) <==> Truthy(ds[k].value)
    {
      assert toks[k] == Token(ds[k]) && live[k] == Truthy(ds[k].value);
    }
  }

  /** A crop left out defaults to `c_limit`; an explicit falsy crop (`null`,
      `''`, `0`, `false`) suppresses the crop token instead of falling back
      to the default. */
  lemma CropDefaultOnlyWhenUndefined(o: Options)
    ensures o.crop.Undefined? ==> "c_limit" in Transformations(o)
    ensures !o.crop.Undefined? && !Truthy(o.crop) ==>
      forall j :: 0 <= j < |Transformations(o)| ==> !StartsWith(Transformations(o)[j], "c")
  {
    var ds := Directives(o);
    var t, toks, live := Transformations(o), Tokens(ds), Live(ds);
    assert Picks(t, toks, live, 5) && (toks[2] in t <==> live[2]) by {
      TransformationsSpec(o);
      assert toks[2] == Token(ds[2]) && live[2] == Truthy(ds[2].value);
    }
    if o.crop.Undefined? {
      assert toks[2] == "c_limit" by {
        assert ds[2].value == Str("limit");
      }
    } else if !Truthy(o.crop) {
      assert !live[2];
      forall j | 0 <= j < |t|
        ensures !StartsWith(t[j], "c")
      {
        AbsentCandidate(t, toks, live, 5, 'c', j);
      }
    }
  }

  /** A candidate that is not live contributes no token, so no token has its
      letter. */
  lemma AbsentCandidate(t: seq<string>, toks: seq<string>, live: seq<bool>, n: nat, c: char, j: nat)
    requires Picks(t, toks, live, n) && Rank(c) < n <= |live| && !live[Rank(c)] && j < |t|
    ensures !StartsWith(t[j], [c])
  {
  }

  /** The five directive tokens start with w, h, c, q, f in that order. */
  lemma DirectiveRanks(o: Options)
    ensures RanksInOrder(Tokens(Directives(o)))
  {
    var ds := Directives(o);
    var toks := Tokens(ds);
    forall k | 0 <= k < 5
      ensures |toks[k]| > 0 && Rank(toks[k][0]) == k
    {
      assert toks[k][0] == ds[k].code[0];
    }
  }

  /** The five conditional pushes of the source are the candidate pushes. */
  lemma TransformationsArePicks(o: Options)
    ensures PickUpTo(Tokens(Directives(o)), Live(Directives(o)), 5) == Transformations(o)
  {
    var ds := Directives(o);
    var toks, live := Tokens(ds), Live(ds);
    var e := [Emit(ds[0]), Emit(ds[1]), Emit(ds[2]), Emit(ds[3]), Emit(ds[4])];
    forall k | 0 <= k < 5
      ensures Pick(toks[k], live[k]) == e[k]
    {
    }
    assert PickUpTo(toks, live, 1) == e[0] by {
      assert [] + e[0] == e[0];
    }
    assert PickUpTo(toks, live, 2) == e[0] + e[1];
    assert PickUpTo(toks, live, 3) == e[0] + e[1] + e[2];
    assert PickUpTo(toks, live, 4) == e[0] + e[1] + e[2] + e[3];
  }

  /** The rewritten URL shape: non-empty, on the Cloudinary host, with an
      `upload` path segment. */
  predicate Rewritable(url: string)
  {
    url != "" && Includes(url, CloudinaryBaseUrl) && UploadSegment in Split(url, '/')
  }

  /** `[...parts.slice(0, i + 1), ...tokens, ...parts.slice(i + 1)].join('/')` */
  function InsertAfter(parts: seq<string>, i: int, tokens: seq<string>): string
    requires 0 <= i < |parts|
  {
    Join(parts[..i + 1] + tokens + parts[i + 1..], Slash)
  }

  /** `getOptimizedImageUrl(url, options)`. */
  function OptimizedImageUrl(url: string, o: Options := NoOptions): (r: string)
    ensures !Rewritable(url) ==> r == url
  {
    if url == "" || !Includes(url, CloudinaryBaseUrl) then url
    else
      var urlParts := Split(url, '/');
      var uploadIndex := IndexOf(urlParts, UploadSegment);
      if uploadIndex == -1 then url
      else InsertAfter(urlParts, uploadIndex, Transformations(o))
  }

  /** The position of the first `upload` segment. */
  function UploadIndex(url: string): (i: nat)
    requires UploadSegment in Split(url, '/')
    ensures i < |Split(url, '/')| && Split(url, '/')[i] == UploadSegment
  {
    IndexOf(Split(url, '/'), UploadSegment)
  }

  /** The splice step on its own, for any token list. */
  function Rewrite(url: string, t: seq<string>): string
    requires UploadSegment in Split(url, '/')
  {
    InsertAfter(Split(url, '/'), UploadIndex(url), t)
  }

  /** The URL up to and including its first `upload` segment. */
  function UploadHead(url: string): string
    requires UploadSegment in Split(url, '/')
  {
    Join(Split(url, '/')[..UploadIndex(url) + 1], Slash)
  }

  /** What the rewrite inserts right after the head. */
  function Inserted(t: seq<string>): string
  {
    SepJoin(t, Slash)
  }

  predicate NoSlashIn(t: seq<string>)
  {
    forall j :: 0 <= j < |t| ==> '/' !in t[j]
  }

  /** No option string contains a `/`. */
  predicate SlashFree(o: Options)
  {
    forall k :: 0 <= k < 5 ==> (Directives(o)[k].value.Str? ==> '/' !in Directives(o)[k].value.s)
  }

  /** Every token renders without a `/` when no option string has one. */
  lemma TokensSlashFree(o: Options)
    requires SlashFree(o)
    ensures NoSlashIn(Transformations(o))
  {
    var ds := Directives(o);
    var t, toks := Transformations(o), Tokens(ds);
    assert TokensFromLive(t, toks, Live(ds), 5) by {
      TransformationsSpec(o);
    }
    forall j | 0 <= j < |t|
      ensures '/' !in t[j]
    {
      var k := Rank(t[j][0]);
      assert t[j] == toks[k];
      DirectiveTokenSlashFree(o, k);
    }
  }

  /** A directive's token has no `/` when its value, if a string, has none. */
  lemma DirectiveTokenSlashFree(o: Options, k: nat)
    requires SlashFree(o) && k < 5
    ensures '/' !in Tokens(Directives(o))[k]
  {
    var d := Directives(o)[k];
    if d.value.Num? {
      var s := IntToString(d.value.n);
      assert forall m :: 0 <= m < |s| ==> s[m] != '/';
    }
    assert Tokens(Directives(o))[k] == d.code + ToStr(d.value);
  }

  /** Splicing segments `t` into a segment list after position `i` inserts
      `Inserted(t)` into the joined string right after the first `i + 1`
      segments. This is `JoinSpliceAt` for the `/` separator, restated with
      `InsertAfter` and `Inserted` so that the URL lemmas can use it. */
  lemma JoinSplice(parts: seq<string>, i: nat, t: seq<string>)
    requires i < |parts|
    ensures var head := Join(parts[..i + 1], Slash);
            |head| <= |Join(parts, Slash)| && Join(parts, Slash)[..|head|] == head
            && InsertAfter(parts, i, t) == head + Inserted(t) + Join(parts, Slash)[|head|..]
  {
    JoinSpliceAt(parts, i, t, Slash);
  }

  /** The splice inserts `Inserted(t)` right after the first `upload`
      segment and changes nothing else. */
  lemma RewriteSplice(url: string, t: seq<string>)
    requires UploadSegment in Split(url, '/')
    ensures |UploadHead(url)| <= |url| && url[..|UploadHead(url)|] == UploadHead(url)
    ensures EndsWith(UploadHead(url), UploadSegment)
    ensures Rewrite(url, t) == UploadHead(url) + Inserted(t) + url[|UploadHead(url)|..]
  {
    UploadHeadEnds(url);
    RewriteSpliceAt(url, t);
  }

  /** The head ends with the `upload` segment itself. */
  lemma UploadHeadEnds(url: string)
    requires UploadSegment in Split(url, '/')
    ensures EndsWith(UploadHead(url), UploadSegment)
  {
    var head := Split(url, '/')[..UploadIndex(url) + 1];
    assert UploadHead(url) == Join(head, Slash);
    assert head[|head| - 1] == UploadSegment;
    JoinEndsWithLast(head, Slash);
  }

  /** The splice equation of `RewriteSplice` without the `EndsWith` fact.
      It is a lemma of its own so that each of the two proofs stays small. */
  lemma RewriteSpliceAt(url: string, t: seq<string>)
    requires UploadSegment in Split(url, '/')
    ensures |UploadHead(url)| <= |url| && url[..|UploadHead(url)|] == UploadHead(url)
    ensures Rewrite(url, t) == UploadHead(url) + Inserted(t) + url[|UploadHead(url)|..]
  {
    var parts := Split(url, '/');
    var i := UploadIndex(url);
    assert Rewrite(url, t) == InsertAfter(parts, i, t);
    assert UploadHead(url) == Join(parts[..i + 1], Slash);
    assert Join(parts, Slash) == url by {
      JoinSplit(url, '/');
    }
    JoinSplice(parts, i, t);
  }

  /** The segments after a splice of `/`-free tokens. */
  lemma RewriteSegments(url: string, t: seq<string>)
    requires UploadSegment in Split(url, '/') && NoSlashIn(t)
    ensures var parts := Split(url, '/');
            var i := IndexOf(parts, UploadSegment);
            Split(Rewrite(url, t), '/') == parts[..i + 1] + t + parts[i + 1..]
  {
    var parts := Split(url, '/');
    var i := IndexOf(parts, UploadSegment);
    var segs := parts[..i + 1] + t + parts[i + 1..];
    assert NoSlashIn(segs) by {
      SpliceNoSlash(parts, i, t);
    }
    assert Rewrite(url, t) == Join(segs, ['/']);
    SplitJoin(segs, '/');
  }

  /** Splicing slash-free segments into slash-free segments leaves them
      slash-free. */
  lemma SpliceNoSlash(parts: seq<string>, i: nat, t: seq<string>)
    requires i < |parts| && NoSlashIn(parts) && NoSlashIn(t)
    ensures NoSlashIn(parts[..i + 1] + t + parts[i + 1..])
  {
    var segs := parts[..i + 1] + t + parts[i + 1..];
    forall j | 0 <= j < |segs|
      ensures '/' !in segs[j]
    {
      if j <= i {
        assert segs[j] == parts[j];
      } else if j < i + 1 + |t| {
        assert segs[j] == t[j - i - 1];
      } else {
        assert segs[j] == parts[j - |t|];
      }
    }
  }

  /** The Cloudinary host has a single `d`, and it follows a `u`. */
  lemma BaseLetters()
    ensures forall m :: 0 <= m < |CloudinaryBaseUrl| && CloudinaryBaseUrl[m] == 'd' ==> m == 16
    ensures CloudinaryBaseUrl[15] == 'u'
  {
  }

  /** The Cloudinary host cannot overlap the end of an `upload` segment:
      the `d` that ends `upload` would have to be the host's only `d`, which
      follows a `u`, not an `a`. */
  lemma NotAcrossUploadEnd(s: string, end: int, p: int)
    requires 6 <= end <= |s| && s[end - 6..end] == UploadSegment
    requires p < end < p + |CloudinaryBaseUrl|
    ensures !OccursAt(s, CloudinaryBaseUrl, p)
  {
    var b := CloudinaryBaseUrl;
    if 0 <= p && p + |b| <= |s| {
      BaseLetters();
      var j := end - 1 - p;
      assert s[end - 1] == UploadSegment[5] == 'd';
      if j != 16 {
        assert s[p..p + |b|][j] == s[end - 1] != b[j];
      } else {
        assert s[end - 2] == UploadSegment[4] == 'a';
        assert s[p..p + |b|][15] == s[end - 2] != b[15];
      }
    }
  }

  /** Inserting text right after an `upload` segment keeps the Cloudinary
      host in the string. */
  lemma BaseSurvivesInsertion(head: string, ins: string, tail: string)
    requires Includes(head + tail, CloudinaryBaseUrl)
    requires EndsWith(head, UploadSegment)
    ensures Includes(head + ins + tail, CloudinaryBaseUrl)
  {
    var b := CloudinaryBaseUrl;
    var s := head + tail;
    var p :| 0 <= p <= |s| - |b| && OccursAt(s, b, p);
    if p < |head| < p + |b| {
      assert |UploadSegment| == 6;
      assert s[|head| - 6..|head|] == head[|head| - 6..];
      NotAcrossUploadEnd(s, |head|, p);
    } else if p + |b| <= |head| {
      OccursBefore(head, ins, tail, b, p);
    } else {
      OccursAfter(head, ins, tail, b, p);
    }
  }

  /** A spliced URL still contains the Cloudinary host. */
  lemma RewriteKeepsHost(url: string, t: seq<string>)
    requires Rewritable(url)
    ensures Includes(Rewrite(url, t), CloudinaryBaseUrl)
  {
    var head := UploadHead(url);
    RewriteSplice(url, t);
    assert url == head + url[|head|..];
    BaseSurvivesInsertion(head, Inserted(t), url[|head|..]);
  }

  /** The first `upload` segment of a spliced URL is where it was. Unlike
      `RewriteKeepsUploadIndex`, this needs only an `upload` segment, not the
      Cloudinary host, and it says nothing about the host. */
  lemma RewriteKeepsIndex(url: string, t: seq<string>)
    requires UploadSegment in Split(url, '/') && NoSlashIn(t)
    ensures IndexOf(Split(Rewrite(url, t), '/'), UploadSegment) == IndexOf(Split(url, '/'), UploadSegment)
  {
    var parts := Split(url, '/');
    RewriteSegments(url, t);
    IndexOfSplice(parts, IndexOf(parts, UploadSegment), t, UploadSegment);
  }

  /** Splicing after the first occurrence of `x` leaves it the first. */
  lemma IndexOfSplice<T>(xs: seq<T>, i: int, t: seq<T>, x: T)
    requires 0 <= i < |xs| && IndexOf(xs, x) == i
    ensures IndexOf(xs[..i + 1] + t + xs[i + 1..], x) == i
  {
    var ys := xs[..i + 1] + t + xs[i + 1..];
    assert ys[i] == x;
    assert ys[..i] == xs[..i];
  }

  /** A spliced URL is again rewritable, with its first `upload` segment at
      the same position. */
  lemma RewriteKeepsUploadIndex(url: string, t: seq<string>)
    requires Rewritable(url) && NoSlashIn(t)
    ensures Rewritable(Rewrite(url, t))
    ensures IndexOf(Split(Rewrite(url, t), '/'), UploadSegment) == IndexOf(Split(url, '/'), UploadSegment)
  {
    RewriteKeepsHost(url, t);
    RewriteKeepsIndex(url, t);
  }

  /** Splicing twice puts the second run of tokens ahead of the first. */
  lemma RewriteTwice(url: string, t: seq<string>)
    requires Rewritable(url) && NoSlashIn(t)
    ensures Rewritable(Rewrite(url, t))
    ensures var parts := Split(url, '/');
            var i := IndexOf(parts, UploadSegment);
            Split(Rewrite(Rewrite(url, t), t), '/') == parts[..i + 1] + t + t + parts[i + 1..]
  {
    RewriteKeepsHost(url, t);
    RewriteTwiceSegments(url, t);
  }

  lemma RewriteTwiceSegments(url: string, t: seq<string>)
    requires UploadSegment in Split(url, '/') && NoSlashIn(t)
    ensures UploadSegment in Split(Rewrite(url, t), '/')
    ensures var parts := Split(url, '/');
            var i := IndexOf(parts, UploadSegment);
            Split(Rewrite(Rewrite(url, t), t), '/') == parts[..i + 1] + t + t + parts[i + 1..]
  {
    var parts := Split(url, '/');
    var i := IndexOf(parts, UploadSegment);
    var once := Rewrite(url, t);
    var segs := parts[..i + 1] + t + parts[i + 1..];
    assert Split(once, '/') == segs by {
      RewriteSegments(url, t);
    }
    assert UploadSegment in Split(once, '/') && IndexOf(Split(once, '/'), UploadSegment) == i by {
      RewriteKeepsIndex(url, t);
    }
    SecondSplice(once, t, parts, i);
  }

  /** Splicing `t` into a URL whose segments already hold `t` after
      position `i` gives two runs of `t` there. */
  lemma SecondSplice(once: string, t: seq<string>, parts: seq<string>, i: nat)
    requires NoSlashIn(t) && i < |parts|
    requires Split(once, '/') == parts[..i + 1] + t + parts[i + 1..]
    requires UploadSegment in Split(once, '/') && IndexOf(Split(once, '/'), UploadSegment) == i
    ensures Split(Rewrite(once, t), '/') == parts[..i + 1] + t + t + parts[i + 1..]
  {
    var segs := parts[..i + 1] + t + parts[i + 1..];
    assert Split(Rewrite(once, t), '/') == segs[..i + 1] + t + segs[i + 1..] by {
      RewriteSegments(once, t);
    }
    SpliceTwice(parts, i, t);
  }

  lemma SpliceTwice<T>(xs: seq<T>, i: nat, t: seq<T>)
    requires i < |xs|
    ensures var ys := xs[..i + 1] + t + xs[i + 1..];
            ys[..i + 1] + t + ys[i + 1..] == xs[..i + 1] + t + t + xs[i + 1..]
  {
    var ys := xs[..i + 1] + t + xs[i + 1..];
    assert ys[..i + 1] == xs[..i + 1];
    assert ys[i + 1..] == t + xs[i + 1..];
  }

  /** On a rewritable URL the function is the splice of its transformations. */
  lemma OptimizedIsRewrite(url: string, o: Options)
    requires Rewritable(url)
    ensures OptimizedImageUrl(url, o) == Rewrite(url, Transformations(o))
  {
  }

  /** A rewrite puts the tokens, joined by `/`, right after the first
      `upload` segment and changes nothing else: deleting the inserted text
      gives back the original URL. */
  lemma SpliceAfterUpload(url: string, o: Options)
    requires Rewritable(url)
    ensures |UploadHead(url)| <= |url| && url[..|UploadHead(url)|] == UploadHead(url)
    ensures EndsWith(UploadHead(url), UploadSegment)
    ensures OptimizedImageUrl(url, o)
            == UploadHead(url) + Inserted(Transformations(o)) + url[|UploadHead(url)|..]
  {
    OptimizedIsRewrite(url, o);
    RewriteSplice(url, Transformations(o));
  }

  /** The URL is returned unchanged exactly when it is not a rewritable
      Cloudinary URL or no directive is truthy. */
  lemma UnchangedIff(url: string, o: Options)
    ensures OptimizedImageUrl(url, o) == url <==> !Rewritable(url) || Transformations(o) == []
  {
    if Rewritable(url) {
      var t := Transformations(o);
      assert OptimizedImageUrl(url, o) == Rewrite(url, t) by {
        OptimizedIsRewrite(url, o);
      }
      assert |Rewrite(url, t)| == |url| + |Inserted(t)| && (t != [] ==> |Inserted(t)| > 0) by {
        RewriteLength(url, t);
      }
      assert t == [] ==> Rewrite(url, t) == url by {
        if t == [] {
          RewriteNothing(url);
        }
      }
    }
  }

  /** Splicing no tokens gives back the URL. */
  lemma RewriteNothing(url: string)
    requires UploadSegment in Split(url, '/')
    ensures Rewrite(url, []) == url
  {
    var head := UploadHead(url);
    RewriteSplice(url, []);
    assert Inserted([]) == [];
    ConcatHalves(head, url[|head|..]);
    assert url == head + url[|head|..];
  }

  /** A splice lengthens the URL by exactly the inserted text. */
  lemma RewriteLength(url: string, t: seq<string>)
    requires UploadSegment in Split(url, '/')
    ensures |Rewrite(url, t)| == |url| + |Inserted(t)|
    ensures t != [] ==> |Inserted(t)| > 0
  {
    RewriteSplice(url, t);
  }

  /** The segments of a rewritten URL: the original ones up to and including
      the first `upload`, then the tokens, then every remaining original
      segment verbatim and in order. */
  lemma SegmentsAfterRewrite(url: string, o: Options)
    requires Rewritable(url) && SlashFree(o)
    ensures var parts := Split(url, '/');
            var i := IndexOf(parts, UploadSegment);
            Split(OptimizedImageUrl(url, o), '/')
              == parts[..i + 1] + Transformations(o) + parts[i + 1..]
  {
    TokensSlashFree(o);
    OptimizedIsRewrite(url, o);
    RewriteSegments(url, Transformations(o));
  }

  /** Deleting the spliced token segments and joining again recovers the
      original URL. */
  lemma RewriteRestores(url: string, t: seq<string>)
    requires UploadSegment in Split(url, '/') && NoSlashIn(t)
    ensures var segs := Split(Rewrite(url, t), '/');
            var i := UploadIndex(url);
            i + 1 + |t| <= |segs| && Join(segs[..i + 1] + segs[i + 1 + |t|..], Slash) == url
  {
    var parts := Split(url, '/');
    var i := UploadIndex(url);
    var segs := parts[..i + 1] + t + parts[i + 1..];
    assert Split(Rewrite(url, t), '/') == segs by {
      RewriteSegments(url, t);
    }
    assert segs[..i + 1] + segs[i + 1 + |t|..] == parts by {
      CutMiddle(parts[..i + 1], t, parts[i + 1..]);
      assert parts[..i + 1] + parts[i + 1..] == parts;
    }
    JoinSplit(url, '/');
  }

  /** With the empty options object exactly `c_limit`, `q_auto` and `f_auto`
      are inserted right after `upload`. */
  lemma DefaultOptionsInsertThree(url: string)
    requires Rewritable(url)
    ensures var parts := Split(url, '/');
            var i := IndexOf(parts, UploadSegment);
            Split(OptimizedImageUrl(url), '/')
              == parts[..i + 1] + ["c_limit", "q_auto", "f_auto"] + parts[i + 1..]
  {
    var ds := Directives(NoOptions);
    assert "c_" + "limit" == "c_limit" && "q_" + "auto" == "q_auto" && "f_" + "auto" == "f_auto";
    assert Emit(ds[0]) == [] && Emit(ds[1]) == [];
    assert Emit(ds[2]) == ["c_limit"] && Emit(ds[3]) == ["q_auto"] && Emit(ds[4]) == ["f_auto"];
    assert Transformations(NoOptions) == ["c_limit", "q_auto", "f_auto"];
    SegmentsAfterRewrite(url, NoOptions);
  }

  /** The rewrite is not idempotent: applied to its own output it finds the
      same `upload` segment and inserts a second run of tokens ahead of the
      first. */
  lemma ReapplyingInsertsSecondRun(url: string, o: Options)
    requires Rewritable(url) && SlashFree(o) && Transformations(o) != []
    ensures var parts := Split(url, '/');
            var i := IndexOf(parts, UploadSegment);
            var t := Transformations(o);
            var once := OptimizedImageUrl(url, o);
            Split(OptimizedImageUrl(once, o), '/') == parts[..i + 1] + t + t + parts[i + 1..]
            && OptimizedImageUrl(once, o) != once
  {
    var t := Transformations(o);
    TokensSlashFree(o);
    OptimizedIsRewrite(url, o);
    RewriteTwice(url, t);
    OptimizedIsRewrite(Rewrite(url, t), o);
    RewriteSegments(url, t);
  }

  /** One entry of the responsive set: `{width, url}`. */
  datatype SizedUrl = SizedUrl(width: int, url: string)

  /** The options `{width, crop: 'fill'}` used for each responsive entry. */
  function FillOptions(w: int): Options
  {
    Options(Num(w), Undefined, Str("fill"), Undefined, Undefined)
  }

  /** `getResponsiveImageUrls(url, widths)`: one entry per width, in order,
      duplicates kept. */
  function ResponsiveImageUrls(url: string, widths: seq<int> := DefaultWidths): (r: seq<SizedUrl>)
    ensures |r| == |widths|
    ensures forall i :: 0 <= i < |widths| ==>
      r[i] == SizedUrl(widths[i], OptimizedImageUrl(url, FillOptions(widths[i])))
    decreases |widths|
  {
    if widths == [] then []
    else [SizedUrl(widths[0], OptimizedImageUrl(url, FillOptions(widths[0])))]
         + ResponsiveImageUrls(url, widths[1..])
  }

  /** The width token of a responsive entry, absent for width 0. */
  function WidthTokens(w: int): seq<string>
  {
    if w != 0 then ["w_" + IntToString(w)] else []
  }

  /** The tokens every responsive entry carries after its width. */
  const FillDefaults: seq<string> := ["c_fill", "q_auto", "f_auto"]

  /** The tokens of a responsive entry: the width unless it is 0, then
      `c_fill`, `q_auto`, `f_auto`. */
  function FillTokenList(w: int): seq<string>
  {
    WidthTokens(w) + FillDefaults
  }

  lemma FillTokens(w: int)
    ensures Transformations(FillOptions(w)) == FillTokenList(w)
  {
    var ds := Directives(FillOptions(w));
    assert Emit(ds[0]) + Emit(ds[1]) == WidthTokens(w) by {
      FillHead(w);
    }
    assert Emit(ds[2]) + Emit(ds[3]) + Emit(ds[4]) == FillDefaults by {
      FillTail(w);
    }
    Regroup(WidthTokens(w), Emit(ds[2]), Emit(ds[3]), Emit(ds[4]));
  }

  /** No responsive token contains a `/`. */
  lemma FillTokensSlashFree(w: int)
    ensures NoSlashIn(FillTokenList(w))
  {
    WidthTokenSlashFree(w);
  }

  lemma FillHead(w: int)
    ensures var ds := Directives(FillOptions(w));
            Emit(ds[0]) + Emit(ds[1]) == WidthTokens(w)
  {
  }

  lemma FillTail(w: int)
    ensures var ds := Directives(FillOptions(w));
            Emit(ds[2]) + Emit(ds[3]) + Emit(ds[4]) == FillDefaults
  {
    assert "c_" + "fill" == "c_fill" && "q_" + "auto" == "q_auto" && "f_" + "auto" == "f_auto";
  }

  /** A rendered width contains no `/`. */
  lemma WidthTokenSlashFree(w: int)
    ensures '/' !in "w_" + IntToString(w)
  {
    var s := IntToString(w);
    assert forall m :: 0 <= m < |s| ==> s[m] != '/';
    assert forall m :: 0 <= m < |s| ==> ("w_" + s)[m + 2] == s[m];
  }

  /** Each responsive URL is the original with the fill tokens inserted after
      `upload`, or the original itself when it is not rewritable. */
  lemma ResponsiveUrlSegments(url: string, widths: seq<int>, k: nat)
    requires k < |widths|
    ensures !Rewritable(url) ==> ResponsiveImageUrls(url, widths)[k].url == url
    ensures Rewritable(url) ==>
      var parts := Split(url, '/');
      var i := IndexOf(parts, UploadSegment);
      Split(ResponsiveImageUrls(url, widths)[k].url, '/')
        == parts[..i + 1] + FillTokenList(widths[k]) + parts[i + 1..]
  {
    var w := widths[k];
    assert ResponsiveImageUrls(url, widths)[k].url == OptimizedImageUrl(url, FillOptions(w));
    if Rewritable(url) {
      assert OptimizedImageUrl(url, FillOptions(w)) == Rewrite(url, FillTokenList(w)) by {
        FillTokens(w);
        OptimizedIsRewrite(url, FillOptions(w));
      }
      assert NoSlashIn(FillTokenList(w)) by {
        FillTokensSlashFree(w);
      }
      RewriteSegments(url, FillTokenList(w));
    } else {
      UnchangedIff(url, FillOptions(w));
    }
  }

  /** The srcset descriptor `${url} ${width}w`. */
  function Descriptor(e: SizedUrl): string
  {
    e.url + " " + IntToString(e.width) + "w"
  }

  function Descriptors(es: seq<SizedUrl>): (ds: seq<string>)
    ensures |ds| == |es|
    ensures forall i :: 0 <= i < |es| ==> ds[i] == Descriptor(es[i])
    decreases |es|
  {
    if es == [] then [] else [Descriptor(es[0])] + Descriptors(es[1..])
  }

  /** The separator between srcset entries. */
  const ListSeparator: string := ", "

  /** `generateSrcset(url, widths)`. */
  function GenerateSrcset(url: string, widths: seq<int> := DefaultWidths): (s: string)
    ensures widths == [] ==> s == ""
    ensures |widths| == 1 ==> s == Descriptor(SizedUrl(widths[0], OptimizedImageUrl(url, FillOptions(widths[0]))))
  {
    Join(Descriptors(ResponsiveImageUrls(url, widths)), ListSeparator)
  }

  /** The srcset of no widths is empty; each further width appends its
      descriptor, after a `", "` unless it is the first. */
  lemma SrcsetShape(url: string, widths: seq<int>, w: int)
    ensures GenerateSrcset(url, []) == ""
    ensures GenerateSrcset(url, widths + [w])
            == (if widths == [] then "" else GenerateSrcset(url, widths) + ListSeparator)
               + Descriptor(SizedUrl(w, OptimizedImageUrl(url, FillOptions(w))))
  {
    if widths == [] {
      assert widths + [w] == [w];
    } else {
      var d := Descriptor(SizedUrl(w, OptimizedImageUrl(url, FillOptions(w))));
      var before := Descriptors(ResponsiveImageUrls(url, widths));
      assert Descriptors(ResponsiveImageUrls(url, widths + [w])) == before + [d] by {
        DescriptorsSnoc(url, widths, w);
      }
      assert Join([d], ListSeparator) == d;
      JoinAppend(before, [d], ListSeparator);
    }
  }

  /** One more width adds one more descriptor at the end. */
  lemma DescriptorsSnoc(url: string, widths: seq<int>, w: int)
    ensures Descriptors(ResponsiveImageUrls(url, widths + [w]))
            == Descriptors(ResponsiveImageUrls(url, widths))
               + [Descriptor(SizedUrl(w, OptimizedImageUrl(url, FillOptions(w))))]
  {
    var e := SizedUrl(w, OptimizedImageUrl(url, FillOptions(w)));
    ResponsiveSnoc(url, widths, w);
    DescriptorsAppend(ResponsiveImageUrls(url, widths), e);
  }

  /** One more width adds one more entry at the end. */
  lemma ResponsiveSnoc(url: string, widths: seq<int>, w: int)
    ensures ResponsiveImageUrls(url, widths + [w])
            == ResponsiveImageUrls(url, widths) + [SizedUrl(w, OptimizedImageUrl(url, FillOptions(w)))]
  {
    var ws := widths + [w];
    var rs, r0 := ResponsiveImageUrls(url, ws), ResponsiveImageUrls(url, widths);
    forall i | 0 <= i < |widths|
      ensures rs[i] == r0[i]
    {
      assert ws[i] == widths[i];
    }
    assert ws[|widths|] == w;
  }

  /** The descriptors of one more entry end with its descriptor. */
  lemma DescriptorsAppend(es: seq<SizedUrl>, e: SizedUrl)
    ensures Descriptors(es + [e]) == Descriptors(es) + [Descriptor(e)]
  {
    var ds := Descriptors(es + [e]);
    forall i | 0 <= i < |es|
      ensures ds[i] == Descriptors(es)[i]
    {
      assert (es + [e])[i] == es[i];
    }
    assert (es + [e])[|es|] == e;
  }
}
