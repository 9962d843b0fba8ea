/** The pure helpers the transaction dispatcher uses: substituting signer
    names in call parameters, looking up the signer of a write, telling writes
    from reads, resolving a dotted call path against the API's tree of
    members, and the text shown for an entry or a string result. */
module Utils {
  import opened Wrappers
  import opened Text
  import opened Types

  /** The conventional root segment of a call path (`api.tx.balances.transfer`). */
  const ApiPrefix: string := "api"

  // =====================================================================
  // transformParams
  // =====================================================================

  /** A parameter that names one of the known signers. */
  predicate IsSignerName(p: TxParam, signers: map<string, KeyringPair>)
  {
    p.Str? && p.s in signers
  }

  function TransformParam(p: TxParam, signers: map<string, KeyringPair>): TxParam
  {
    if IsSignerName(p, signers) then Str(signers[p.s].address) else p
  }

  /** Replaces every string parameter that names a known signer by that
      signer's address, keeping every other parameter and the order. */
  function TransformParams(params: seq<TxParam>, signers: map<string, KeyringPair>): (r: seq<TxParam>)
    ensures |r| == |params|
    ensures forall i :: 0 <= i < |params| && IsSignerName(params[i], signers) ==>
      r[i] == Str(signers[params[i].s].address)
    ensures forall i :: 0 <= i < |params| && !IsSignerName(params[i], signers) ==>
      r[i] == params[i]
  {
    if params == [] then []
    else [TransformParam(params[0], signers)] + TransformParams(params[1..], signers)
  }

  /** The transformation works parameter by parameter, so it distributes
      over concatenation. */
  lemma TransformParamsAppend(a: seq<TxParam>, b: seq<TxParam>, signers: map<string, KeyringPair>)
    ensures TransformParams(a + b, signers) == TransformParams(a, signers) + TransformParams(b, signers)
  {
  }

  /** Without any signer name among the parameters the transformation is the
      identity. */
  lemma TransformParamsIdentity(params: seq<TxParam>, signers: map<string, KeyringPair>)
    requires forall i :: 0 <= i < |params| ==> !IsSignerName(params[i], signers)
    ensures TransformParams(params, signers) == params
  {
  }

  /** Transforming twice is transforming once, as long as no signer's address
      is itself the name of a signer. */
  lemma TransformParamsIdempotent(params: seq<TxParam>, signers: map<string, KeyringPair>)
    requires forall name :: name in signers ==> signers[name].address !in signers
    ensures TransformParams(TransformParams(params, signers), signers) == TransformParams(params, signers)
  {
  }

  // =====================================================================
  // getSigner
  // =====================================================================

  /** The two ways a write entry's signer can be wrong. */
  datatype SignerError = NoSignerSpecified | NotRecognized(name: string)

  /** The text of the `Error` thrown for each signer error. */
  function ErrorMessage(e: SignerError): string
  {
    match e
    case NoSignerSpecified => "writeOp has no signer specified."
    case NotRecognized(name) => name + " signer is not recognized"
  }

  /** Looks up the signer of a write entry: an absent or empty name and an
      unknown name are distinct errors, otherwise the key pair registered
      under the name. */
  function GetSigner(signerStr: Option<string>, signers: map<string, KeyringPair>): (r: Result<KeyringPair, SignerError>)
    ensures r == Failure(NoSignerSpecified) <==> signerStr.None? || signerStr.value == ""
    ensures r.Failure? && r.error.NotRecognized? <==>
      signerStr.Some? && signerStr.value != "" && signerStr.value !in signers
    ensures r.Failure? && r.error.NotRecognized? ==> r.error.name == signerStr.value
    ensures r.Success? <==> signerStr.Some? && signerStr.value != "" && signerStr.value in signers
    ensures r.Success? ==> r.value == signers[signerStr.value]
  {
    if signerStr.None? || |signerStr.value| == 0 then Failure(NoSignerSpecified)
    else if signerStr.value !in signers then Failure(NotRecognized(signerStr.value))
    else Success(signers[signerStr.value])
  }

  /** The two messages end differently: one with a full stop, the other
      with the last letter of "recognized". */
  lemma MessageLastChar(e: SignerError)
    ensures |ErrorMessage(e)| >= 1
    ensures ErrorMessage(e)[|ErrorMessage(e)| - 1] == if e.NoSignerSpecified? then '.' else 'd'
  {
  }

  /** Distinct signer errors carry distinct messages, so the message tells
      which error was thrown and, for an unknown name, which name. */
  lemma ErrorMessageInjective(e1: SignerError, e2: SignerError)
    ensures ErrorMessage(e1) == ErrorMessage(e2) ==> e1 == e2
  {
    MessageLastChar(e1);
    MessageLastChar(e2);
    if ErrorMessage(e1) == ErrorMessage(e2) {
      var m := ErrorMessage(e1);
      if e1.NotRecognized? && e2.NotRecognized? {
        var n, k := e1.name, e2.name;
        assert |n| == |k|;
        assert n == m[..|n|];
        assert k == ErrorMessage(e2)[..|k|];
      }
    }
  }

  /** A signer that `GetSigner` finds under a name is the one whose address
      replaces that name when it appears as a parameter. */
  lemma SignerNameBecomesSignerAddress(name: string, signers: map<string, KeyringPair>, kp: KeyringPair)
    requires GetSigner(Some(name), signers) == Success(kp)
    ensures TransformParams([Str(name)], signers) == [Str(kp.address)]
  {
  }

  /** The empty name is refused even when a signer is registered under it. */
  lemma EmptySignerNameRefused(signers: map<string, KeyringPair>)
    ensures GetSigner(Some(""), signers) == Failure(NoSignerSpecified)
  {
  }

  // =====================================================================
  // isWriteOp
  // =====================================================================

  /** An entry is a write when it is a record whose call path contains
      `tx.`; a bare path is always a read. */
  function IsWriteOp(tx: Tx): (w: bool)
    ensures tx.Bare? ==> !w
  {
    match tx
    case Bare(_) => false
    case Call(path, _, _) => Contains(path, "tx.")
  }

  /** The classification is a substring test: `tx.` may occur anywhere in
      the path. */
  lemma IsWriteOpIff(tx: Tx)
    ensures IsWriteOp(tx) <==> tx.Call? && exists i :: OccursAt(tx.tx, "tx.", i)
  {
    if tx.Call? {
      ContainsIff(tx.tx, "tx.");
    }
  }

  /** Any path segment ending in `tx` that is followed by another segment
      makes a record entry a write: `api.tx.balances.transfer`, but also a
      segment such as `ctx` in the middle of a query path. */
  lemma SegmentEndingInTxIsWrite(segs: seq<string>, k: nat, params: Option<seq<TxParam>>, signer: Option<string>)
    requires k + 1 < |segs|
    requires HasSuffix(segs[k], "tx")
    ensures IsWriteOp(Call(Join(segs, "."), params, signer))
  {
    var s := Join(segs, ".");
    var z := segs[k][..|segs[k]| - 2];
    var pre, rest := JoinAround(segs, k, ".");
    assert s == (pre + z) + "tx." + rest by {
      assert segs[k] == z + "tx";
    }
    ContainsBetween(pre + z, "tx.", rest);
  }

  // =====================================================================
  // getTxCall
  // =====================================================================

  /** A node of the API object: its members by name. Call handles and
      namespaces alike are nodes. */
  datatype ApiNode = ApiNode(members: map<string, ApiNode>)

  /** `node[seg]`, where indexing `undefined` fails as well. */
  function Member(node: Option<ApiNode>, seg: string): Option<ApiNode>
  {
    match node
    case None => None
    case Some(n) => if seg in n.members then Some(n.members[seg]) else None
  }

  /** One step of the reduction: the segment at index 0 is skipped when it is
      the root name, every other segment is looked up. */
  function Step(acc: Option<ApiNode>, seg: string, idx: nat): Option<ApiNode>
  {
    if idx == 0 && seg == ApiPrefix then acc else Member(acc, seg)
  }

  /** `segs.reduce(step, acc)`, with `idx` the index of `segs[0]` in the
      original array. */
  function Reduce(acc: Option<ApiNode>, segs: seq<string>, idx: nat): Option<ApiNode>
    decreases |segs|
  {
    if segs == [] then acc else Reduce(Step(acc, segs[0], idx), segs[1..], idx + 1)
  }

  /** Resolves a dotted call path against the API; `None` when a segment is
      missing, whether the lookup would throw or give `undefined`. The result
      is the descent from the API along the path with a leading `api`
      segment dropped. */
  function GetTxCall(api: ApiNode, txStr: string): (r: Option<ApiNode>)
    ensures r == Descend(api, CallPath(txStr))
  {
    var segs := Split(txStr, '.');
    ReduceIsDescent(Step(Some(api), segs[0], 0), segs[1..], 1);
    Reduce(Some(api), segs, 0)
  }

  /** The reference meaning of a path: descend member by member from a node. */
  function Descend(n: ApiNode, path: seq<string>): Option<ApiNode>
    decreases |path|
  {
    if path == [] then Some(n)
    else if path[0] in n.members then Descend(n.members[path[0]], path[1..])
    else None
  }

  /** The segments of a call path that are actually looked up. */
  function CallPath(txStr: string): seq<string>
  {
    var segs := Split(txStr, '.');
    if segs[0] == ApiPrefix then segs[1..] else segs
  }

  /** Past index 0 the reduction is a plain descent, even through a segment
      named `api`; from a failed lookup it stays failed. */
  lemma {:induction false} ReduceIsDescent(acc: Option<ApiNode>, segs: seq<string>, idx: nat)
    requires idx >= 1
    ensures Reduce(acc, segs, idx) == (match acc case None => None case Some(n) => Descend(n, segs))
    decreases |segs|
  {
    if segs != [] {
      ReduceIsDescent(Step(acc, segs[0], idx), segs[1..], idx + 1);
    }
  }

  /** The looked-up segments of `api.` + `p` are all of `p`'s segments. */
  lemma CallPathRooted(p: string)
    ensures CallPath("api." + p) == Split(p, '.')
  {
    assert "api." + p == ApiPrefix + ['.'] + p;
    SplitAfterPiece(ApiPrefix, p, '.');
  }

  /** Writing the root name in front of a path does not change what it
      resolves to, unless the path already starts with it. */
  lemma ApiPrefixSkipped(api: ApiNode, p: string)
    requires Split(p, '.')[0] != ApiPrefix
    ensures GetTxCall(api, "api." + p) == GetTxCall(api, p)
  {
    CallPathRooted(p);
  }

  /** Round trip with the root name: a path written as `api.` followed by its
      segments resolves by descending along all of them; a later `api`
      segment is an ordinary member lookup. */
  lemma ResolveRootedPath(api: ApiNode, segs: seq<string>)
    requires forall i :: 0 <= i < |segs| ==> '.' !in segs[i]
    ensures GetTxCall(api, Join([ApiPrefix] + segs, ".")) == Descend(api, segs)
  {
    var parts := [ApiPrefix] + segs;
    forall i | 0 <= i < |parts| ensures '.' !in parts[i] {
      if i > 0 {
        assert parts[i] == segs[i - 1];
      }
    }
    SplitJoin(parts, '.');
    assert parts[1..] == segs;
  }

  /** Round trip without the root name: a path whose first segment is not
      `api` resolves by descending along all of its segments. */
  lemma ResolveBarePath(api: ApiNode, segs: seq<string>)
    requires |segs| >= 1 && segs[0] != ApiPrefix
    requires forall i :: 0 <= i < |segs| ==> '.' !in segs[i]
    ensures GetTxCall(api, Join(segs, ".")) == Descend(api, segs)
  {
    SplitJoin(segs, '.');
  }

  /** Descending along `a + b` is descending along `a`, then along `b`. */
  lemma {:induction false} DescendAppend(n: ApiNode, a: seq<string>, b: seq<string>)
    ensures Descend(n, a + b) == (match Descend(n, a) case None => None case Some(m) => Descend(m, b))
    decreases |a|
  {
    if a == [] {
      assert a + b == b;
    } else {
      assert (a + b)[0] == a[0];
      assert (a + b)[1..] == a[1..] + b;
      if a[0] in n.members {
        DescendAppend(n.members[a[0]], a[1..], b);
      }
    }
  }

  /** A path resolves only if every prefix of it resolves. */
  lemma ResolvedPrefix(n: ApiNode, path: seq<string>, i: nat)
    requires i <= |path|
    requires Descend(n, path).Some?
    ensures Descend(n, path[..i]).Some?
  {
    assert path == path[..i] + path[i..];
    DescendAppend(n, path[..i], path[i..]);
  }

  /** A member missing anywhere along the path, in the middle or at the end,
      makes the whole path fail. */
  lemma MissingSegmentFails(n: ApiNode, path: seq<string>, i: nat)
    requires i < |path|
    requires Descend(n, path[..i]).Some?
    requires path[i] !in Descend(n, path[..i]).value.members
    ensures Descend(n, path) == None
  {
    assert path == path[..i] + path[i..];
    DescendAppend(n, path[..i], path[i..]);
    assert path[i..][0] == path[i];
  }

  /** At the level of call paths: `GetTxCall` fails when a member is missing
      along the looked-up segments. */
  lemma GetTxCallMissingSegment(api: ApiNode, txStr: string, i: nat)
    requires i < |CallPath(txStr)|
    requires Descend(api, CallPath(txStr)[..i]).Some?
    requires CallPath(txStr)[i] !in Descend(api, CallPath(txStr)[..i]).value.members
    ensures GetTxCall(api, txStr) == None
  {
    MissingSegmentFails(api, CallPath(txStr), i);
  }

  // =====================================================================
  // txDisplay (undecorated text)
  // =====================================================================

  /** The link emoji that starts every displayed entry. */
  const LinkEmoji: string := "\U{1F517}"

  /** What separates the call from its signer's name. */
  const SignerMark: string := " | \U{270D}\U{FE0F}  "

  /** `String(p)`, as `Array.prototype.join` renders an element: a string
      as it is, a number as its canonical decimal text, a boolean as `true`
      or `false`. */
  function ParamText(p: TxParam): (r: string)
    ensures p.Str? ==> r == p.s
    ensures p.Num? ==> IsIntegerText(r) && IntegerValue(r) == p.n
    ensures p.Bool? ==> (r == "true" <==> p.b) && (r == "false" <==> !p.b)
  {
    match p
    case Str(s) => s
    case Num(n) => IntToDecimalRoundTrip(n); IntToDecimal(n)
    case Bool(b) => if b then "true" else "false"
  }

  function ParamTexts(ps: seq<TxParam>): seq<string>
  {
    seq(|ps|, i requires 0 <= i < |ps| => ParamText(ps[i]))
  }

  /** No string parameter contains `c`. */
  predicate FreeOf(ps: seq<TxParam>, c: char)
  {
    forall i :: 0 <= i < |ps| && ps[i].Str? ==> c !in ps[i].s
  }

  /** The parameters' texts joined with `", "`; empty when the entry has no
      parameters or an empty array of them. When no string parameter holds a
      comma, splitting on `,` gives back every parameter's text in order,
      all but the first behind the space of the separator. */
  function ParamsText(params: Option<seq<TxParam>>): (r: string)
    ensures params.None? ==> r == ""
    ensures params.Some? && |params.value| == 0 ==> r == ""
    ensures params.Some? && |params.value| >= 1 && FreeOf(params.value, ',') ==>
      Split(r, ',') == [ParamText(params.value[0])] + Prefixed(" ", ParamTexts(params.value[1..]))
  {
    if params.Some? then
      JoinedParamsSplit(params.value);
      Join(ParamTexts(params.value), ", ")
    else ""
  }

  /** The entry has a non-empty signer name. */
  predicate HasSigner(tx: Tx)
  {
    tx.Call? && tx.signer.Some? && tx.signer.value != ""
  }

  function PathOf(tx: Tx): string
  {
    match tx
    case Bare(path) => path
    case Call(path, _, _) => path
  }

  /** The text between the parentheses: a record's parameter text, and
      nothing for a bare entry. */
  function ArgsText(tx: Tx): string
  {
    if tx.Bare? then "" else ParamsText(tx.params)
  }

  /** The length of what follows the closing parenthesis: the signer mark
      and name when a signer is named, nothing otherwise. */
  function SignerLength(tx: Tx): nat
  {
    if HasSigner(tx) then |SignerMark| + |tx.signer.value| else 0
  }

  /** What follows the path: the parenthesised argument text, then the
      signer mark and name when a signer is named. */
  function CallTail(args: string, signer: Option<string>): (r: string)
    ensures HasPrefix(r, "(" + args + ")")
    ensures signer.Some? && signer.value != "" ==>
      HasSuffix(r, SignerMark + signer.value) && |r| == |args| + 2 + |SignerMark| + |signer.value|
    ensures signer.None? || signer.value == "" ==> HasSuffix(r, ")") && |r| == |args| + 2
  {
    var call := "(" + args + ")";
    if signer.None? || signer.value == "" then
      HasSuffixConcat("(" + args, ")");
      call
    else
      HasSuffixConcat(call, SignerMark + signer.value);
      assert (call + SignerMark + signer.value)[..|call|] == call;
      call + SignerMark + signer.value
  }

  /** The signer an entry names: none for a bare entry. */
  function SignerOf(tx: Tx): Option<string>
  {
    if tx.Bare? then None else tx.signer
  }

  /** The text shown for an entry, before terminal styling: the path, the
      parenthesised parameter text (empty for a bare entry), then the signer
      mark and name exactly when a signer is named. With the length, the
      prefix and the suffix fix the text character for character. A call
      path without `(` reads back as the text up to the first `(`. */
  function TxText(tx: Tx): (r: string)
    ensures HasPrefix(r, PathOf(tx) + "(" + ArgsText(tx) + ")")
    ensures |r| == |PathOf(tx)| + |ArgsText(tx)| + 2 + SignerLength(tx)
    ensures HasSigner(tx) ==> HasSuffix(r, SignerMark + tx.signer.value)
    ensures !HasSigner(tx) ==> HasSuffix(r, ")")
    ensures '(' !in PathOf(tx) ==> TakeUntil(r, '(') == PathOf(tx)
  {
    var path, args := PathOf(tx), ArgsText(tx);
    var tail := CallTail(args, SignerOf(tx));
    assert tail[0] == '(' by {
      assert tail[..|"(" + args + ")"|][0] == '(';
    }
    TakeUntilAfter(path, tail, '(');
    HasPrefixExtend(path, tail, "(" + args + ")");
    assert path + ("(" + args + ")") == path + "(" + args + ")";
    if HasSigner(tx) then
      HasSuffixExtend(path, tail, SignerMark + tx.signer.value);
      path + tail
    else
      HasSuffixExtend(path, tail, ")");
      path + tail
  }

  /** The displayed entry: the link emoji and a space, then exactly the
      entry's text, so the path, the parameters and the signer suffix read
      back as for `TxText`. */
  function TxDisplay(tx: Tx): (r: string)
    ensures HasPrefix(r, LinkEmoji + " ") && r[|LinkEmoji| + 1..] == TxText(tx)
    ensures '(' !in PathOf(tx) ==> TakeUntil(r[|LinkEmoji| + 1..], '(') == PathOf(tx)
    ensures HasSigner(tx) ==> HasSuffix(r, SignerMark + tx.signer.value)
    ensures !HasSigner(tx) ==> HasSuffix(r, ")")
  {
    var t := TxText(tx);
    var r := LinkEmoji + " " + t;
    assert r[..|LinkEmoji| + 1] == LinkEmoji + " ";
    assert r[|LinkEmoji| + 1..] == t;
    if HasSigner(tx) then
      HasSuffixExtend(LinkEmoji + " ", t, SignerMark + tx.signer.value);
      r
    else
      HasSuffixExtend(LinkEmoji + " ", t, ")");
      r
  }

  /** A character that occurs in no number or boolean text. */
  predicate NonScalarChar(c: char)
  {
    !IsDigit(c) && c != '-' && c !in "true" && c !in "false"
  }

  lemma ParamTextFree(p: TxParam, c: char)
    requires NonScalarChar(c)
    requires p.Str? ==> c !in p.s
    ensures c !in ParamText(p)
  {
  }

  /** The split property of `ParamsText`, stated on the joined texts. */
  lemma JoinedParamsSplit(ps: seq<TxParam>)
    ensures |ps| >= 1 && FreeOf(ps, ',') ==>
      Split(Join(ParamTexts(ps), ", "), ',') == [ParamText(ps[0])] + Prefixed(" ", ParamTexts(ps[1..]))
  {
    if |ps| >= 1 && FreeOf(ps, ',') {
      var texts := ParamTexts(ps);
      forall i | 0 <= i < |texts| ensures ',' !in texts[i] {
        ParamTextFree(ps[i], ',');
      }
      assert ", " == [','] + " ";
      SplitJoinPadded(texts, ',', " ");
      assert texts[1..] == ParamTexts(ps[1..]);
    }
  }

  // =====================================================================
  // stringify (array-of-strings branch)
  // =====================================================================

  /** What `stringify` yields for an array: the joined lines, the JSON text
      of the other branch (not modelled), or the `RangeError` that
      `" ".repeat` throws for a negative count. */
  datatype Stringified = Lines(text: string) | JsonText | RangeError

  /** An array whose first element is a string is joined one element per
      line, continuation lines indented by `spacing` spaces. A call without
      `spacing` uses its default of 0, that is `Stringify(result, 0)`. */
  function Stringify(result: seq<TxParam>, spacing: int): (r: Stringified)
    ensures r.Lines? <==> |result| > 0 && result[0].Str? && spacing >= 0
    ensures r.RangeError? <==> |result| > 0 && result[0].Str? && spacing < 0
  {
    if |result| > 0 && result[0].Str? then
      if spacing < 0 then RangeError
      else Lines(Join(ParamTexts(result), "\n" + Spaces(spacing)))
    else JsonText
  }

  /** When no string element holds a line break, the output has one line per
      element: the first as it is, the others behind the indentation. */
  lemma StringifyOneLinePerElement(result: seq<TxParam>, spacing: int)
    requires Stringify(result, spacing).Lines?
    requires FreeOf(result, '\n')
    ensures Split(Stringify(result, spacing).text, '\n') ==
      [ParamText(result[0])] + Prefixed(Spaces(spacing), ParamTexts(result[1..]))
    ensures |Split(Stringify(result, spacing).text, '\n')| == |result|
  {
    var texts := ParamTexts(result);
    forall i | 0 <= i < |texts| ensures '\n' !in texts[i] {
      ParamTextFree(result[i], '\n');
    }
    var pad := Spaces(spacing);
    assert '\n' !in pad;
    assert "\n" + pad == ['\n'] + pad;
    SplitJoinPadded(texts, '\n', pad);
    assert texts[1..] == ParamTexts(result[1..]);
  }
}
