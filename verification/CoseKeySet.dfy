/** Which keys a published COSE key set yields: the two parsing loops and what their results mean. */
module CoseKeySet {
  import opened Bytes

  type Kid = seq<byte>

  /** A P-256 verifying key, named by its 65-byte uncompressed SEC1 point. */
  type Key = seq<byte>

  datatype Value = Number(i: int) | Binary(b: seq<byte>) | OtherValue

  datatype Label = IntLabel(l: int) | TextLabel

  datatype Param = Param(name: Label, value: Value)

  datatype CoseKey = CoseKey(ec2: bool, keyId: Kid, params: seq<Param>)

  /** A response body; an array entry that is not a COSE_Key is None. */
  datatype Body = NotCbor | NotArray | Entries(entries: seq<Option<CoseKey>>)

  datatype KeyError = NotEc2 | NotP256 | MissingX | MissingY | NotThirtyTwoBytes | NotOnCurve

  datatype SetError = Unreadable | NoUsableKeys

  const CRV := -1
  const X := -2
  const Y := -3
  const P_256 := 1

  /** The value of the last parameter that carries label l. */
  function LastValue(params: seq<Param>, l: int): Option<Value> {
    if params == [] then None
    else
      var p := params[|params| - 1];
      if p.name == IntLabel(l) then Some(p.value) else LastValue(params[..|params| - 1], l)
  }

  /** The last byte string among the parameters that carry label l. */
  function LastBinary(params: seq<Param>, l: int): Option<seq<byte>> {
    if params == [] then None
    else
      var p := params[|params| - 1];
      if p.name == IntLabel(l) && p.value.Binary? then Some(p.value.b) else LastBinary(params[..|params| - 1], l)
  }

  function P256Key(key: CoseKey, onCurve: Key -> bool): Result<Key, KeyError> {
    if !key.ec2 then Err(NotEc2) else
    if LastValue(key.params, CRV) != Some(Number(P_256)) then Err(NotP256) else
    match (LastBinary(key.params, X), LastBinary(key.params, Y))
    case (None, _) => Err(MissingX)
    case (Some(_), None) => Err(MissingY)
    case (Some(x), Some(y)) =>
      if |x| != 32 || |y| != 32 then Err(NotThirtyTwoBytes)
      else if onCurve([0x04] + x + y) then Ok([0x04] + x + y)
      else Err(NotOnCurve)
  }

  // ------------------------------------------------ the reference definition

  /** Parameter c names the curve P-256, and no later parameter names a curve. */
  predicate CurveAt(params: seq<Param>, c: nat) {
    && c < |params| && params[c] == Param(IntLabel(-1), Number(1))
    && forall j | c < j < |params| :: params[j].name != IntLabel(-1)
  }

  /** Parameter i gives b for the label, and no later parameter gives a byte string for it. */
  predicate BytesAt(params: seq<Param>, l: int, i: nat, b: seq<byte>) {
    && i < |params| && params[i] == Param(IntLabel(l), Binary(b))
    && forall j | i < j < |params| :: !(params[j].name == IntLabel(l) && params[j].value.Binary?)
  }

  /** The key carries the P-256 point (x, y): curve under label -1, x under -2, y under -3. */
  ghost predicate CarriesPoint(key: CoseKey, x: seq<byte>, y: seq<byte>) {
    && key.ec2
    && (exists c: nat :: CurveAt(key.params, c))
    && (exists i: nat :: BytesAt(key.params, -2, i, x))
    && (exists j: nat :: BytesAt(key.params, -3, j, y))
  }

  lemma {:induction false} CurveIsLast(params: seq<Param>)
    ensures LastValue(params, -1) == Some(Number(1)) <==> exists c: nat :: CurveAt(params, c)
  {
    if params != [] {
      var n := |params| - 1;
      var front := params[..n];
      CurveIsLast(front);
      if params[n].name == IntLabel(-1) {
        if params[n].value == Number(1) {
          assert CurveAt(params, n);
        }
        if c: nat :| CurveAt(params, c) {
          assert c == n;
        }
      } else {
        if c: nat :| CurveAt(front, c) {
          assert CurveAt(params, c);
        }
        if c: nat :| CurveAt(params, c) {
          assert CurveAt(front, c);
        }
      }
    }
  }

  lemma {:induction false} BytesAreLast(params: seq<Param>, l: int, b: seq<byte>)
    ensures LastBinary(params, l) == Some(b) <==> exists i: nat :: BytesAt(params, l, i, b)
  {
    if params != [] {
      var n := |params| - 1;
      var front := params[..n];
      BytesAreLast(front, l, b);
      if params[n].name == IntLabel(l) && params[n].value.Binary? {
        if params[n].value.b == b {
          assert BytesAt(params, l, n, b);
        }
        if i: nat :| BytesAt(params, l, i, b) {
          assert i == n;
        }
      } else {
        if i: nat :| BytesAt(front, l, i, b) {
          assert BytesAt(params, l, i, b);
        }
        if i: nat :| BytesAt(params, l, i, b) {
          assert BytesAt(front, l, i, b);
        }
      }
    }
  }

  /** A key is read exactly when it carries a point with coordinates of 32 bytes, and then it is that point in
      uncompressed form, if it is on the curve. */
  lemma P256KeyExactly(key: CoseKey, onCurve: Key -> bool, k: Key)
    ensures P256Key(key, onCurve) == Ok(k) <==>
            exists x, y :: CarriesPoint(key, x, y) && |x| == |y| == 32 && k == [0x04] + x + y && onCurve(k)
  {
    CurveIsLast(key.params);
    if P256Key(key, onCurve) == Ok(k) {
      var x, y := LastBinary(key.params, -2).value, LastBinary(key.params, -3).value;
      BytesAreLast(key.params, -2, x);
      BytesAreLast(key.params, -3, y);
      assert CarriesPoint(key, x, y);
    }
    if x, y :| CarriesPoint(key, x, y) && |x| == |y| == 32 && k == [0x04] + x + y && onCurve(k) {
      BytesAreLast(key.params, -2, x);
      BytesAreLast(key.params, -3, y);
    }
  }

  /** What is wrong with any other key, in the order of the checks. */
  lemma P256KeyFailsExactly(key: CoseKey, onCurve: Key -> bool)
    ensures var r := P256Key(key, onCurve);
            var curve := exists c: nat :: CurveAt(key.params, c);
            var hasX := exists x, i: nat :: BytesAt(key.params, -2, i, x);
            var hasY := exists y, i: nat :: BytesAt(key.params, -3, i, y);
            && (r == Err(NotEc2) <==> !key.ec2)
            && (r == Err(NotP256) <==> key.ec2 && !curve)
            && (r == Err(MissingX) <==> key.ec2 && curve && !hasX)
            && (r == Err(MissingY) <==> key.ec2 && curve && hasX && !hasY)
            && (r == Err(NotThirtyTwoBytes) <==>
                exists x, y :: CarriesPoint(key, x, y) && (|x| != 32 || |y| != 32))
            && (r == Err(NotOnCurve) <==>
                exists x, y :: CarriesPoint(key, x, y) && |x| == |y| == 32 && !onCurve([0x04] + x + y))
  {
    CurveIsLast(key.params);
    HasBytesExactly(key.params, -2);
    HasBytesExactly(key.params, -3);
    forall x, y
      ensures CarriesPoint(key, x, y) <==>
              && key.ec2 && LastValue(key.params, -1) == Some(Number(1))
              && LastBinary(key.params, -2) == Some(x) && LastBinary(key.params, -3) == Some(y)
    {
      BytesAreLast(key.params, -2, x);
      BytesAreLast(key.params, -3, y);
    }
    if LastBinary(key.params, -2).Some? && LastBinary(key.params, -3).Some? {
      assert key.ec2 && LastValue(key.params, -1) == Some(Number(1)) ==>
             CarriesPoint(key, LastBinary(key.params, -2).value, LastBinary(key.params, -3).value);
    }
  }

  lemma HasBytesExactly(params: seq<Param>, l: int)
    ensures LastBinary(params, l).Some? <==> exists b, i: nat :: BytesAt(params, l, i, b)
  {
    if LastBinary(params, l).Some? {
      BytesAreLast(params, l, LastBinary(params, l).value);
    }
    if b, i: nat :| BytesAt(params, l, i, b) {
      BytesAreLast(params, l, b);
    }
  }

  method P256FromCoseKey(key: CoseKey, onCurve: Key -> bool) returns (r: Result<Key, KeyError>)
    ensures r == P256Key(key, onCurve)
    ensures forall k :: r == Ok(k) <==>
              exists x, y :: CarriesPoint(key, x, y) && |x| == |y| == 32 && k == [0x04] + x + y && onCurve(k)
  {
    forall k
      ensures P256Key(key, onCurve) == Ok(k) <==>
              exists x, y :: CarriesPoint(key, x, y) && |x| == |y| == 32 && k == [0x04] + x + y && onCurve(k)
    {
      P256KeyExactly(key, onCurve, k);
    }
    if !key.ec2 {
      return Err(NotEc2);
    }
    var x: Option<seq<byte>> := None;
    var y: Option<seq<byte>> := None;
    var crvOk := false;
    for i := 0 to |key.params|
      invariant crvOk <==> LastValue(key.params[..i], CRV) == Some(Number(P_256))
      invariant x == LastBinary(key.params[..i], X)
      invariant y == LastBinary(key.params[..i], Y)
    {
      var p := key.params[i];
      if p.name == IntLabel(CRV) {
        crvOk := p.value == Number(P_256);
      } else if p.name == IntLabel(X) {
        if p.value.Binary? {
          x := Some(p.value.b);
        }
      } else if p.name == IntLabel(Y) {
        if p.value.Binary? {
          y := Some(p.value.b);
        }
      }
      assert key.params[..i + 1][..i] == key.params[..i];
    }
    assert key.params[..|key.params|] == key.params;
    if !crvOk {
      return Err(NotP256);
    }
    if x.None? {
      return Err(MissingX);
    }
    if y.None? {
      return Err(MissingY);
    }
    if |x.value| != 32 || |y.value| != 32 {
      return Err(NotThirtyTwoBytes);
    }
    var sec1 := [0x04] + x.value + y.value;
    return if onCurve(sec1) then Ok(sec1) else Err(NotOnCurve);
  }

  /** An entry counts when it is an EC2 P-256 key with a key id. */
  predicate Yields(entry: Option<CoseKey>, onCurve: Key -> bool, kid: Kid, key: Key) {
    && entry.Some?
    && kid != []
    && entry.value.keyId == kid
    && P256Key(entry.value, onCurve) == Ok(key)
  }

  method ParseCoseKeySet(body: Body, onCurve: Key -> bool) returns (r: Result<seq<(Kid, Key)>, SetError>)
    ensures r.Err? <==>
            !body.Entries? || (forall i, kid, key | 0 <= i < |body.entries| :: !Yields(body.entries[i], onCurve, kid, key))
    ensures r.Ok? ==> body.Entries? && r.value == Usable(body.entries, onCurve)
  {
    if !body.Entries? {
      return Err(Unreadable);
    }
    var out: seq<(Kid, Key)> := [];
    for i := 0 to |body.entries|
      invariant out == Usable(body.entries[..i], onCurve)
    {
      assert body.entries[..i + 1][..i] == body.entries[..i];
      var entry := body.entries[i];
      if entry.Some? {
        var vk := P256FromCoseKey(entry.value, onCurve);
        if vk.Ok? && entry.value.keyId != [] {
          out := out + [(entry.value.keyId, vk.value)];
        }
      }
    }
    assert body.entries[..|body.entries|] == body.entries;
    UsableExactly(body.entries, onCurve);
    if out == [] {
      forall i, kid, key | 0 <= i < |body.entries|
        ensures !Yields(body.entries[i], onCurve, kid, key)
      {
        assert (kid, key) !in out;
      }
      return Err(NoUsableKeys);
    }
    var (kid, key) := out[0];
    assert (kid, key) in out;
    return Ok(out);
  }

  /** The (kid, key) pairs of the entries that count, in order. */
  function Usable(entries: seq<Option<CoseKey>>, onCurve: Key -> bool): seq<(Kid, Key)> {
    if entries == [] then []
    else
      var e := entries[|entries| - 1];
      Usable(entries[..|entries| - 1], onCurve) +
      if e.Some? && P256Key(e.value, onCurve).Ok? && e.value.keyId != []
      then [(e.value.keyId, P256Key(e.value, onCurve).value)]
      else []
  }

  lemma {:induction false} UsableExactly(entries: seq<Option<CoseKey>>, onCurve: Key -> bool)
    ensures forall kid, key :: (kid, key) in Usable(entries, onCurve) <==>
                               exists i | 0 <= i < |entries| :: Yields(entries[i], onCurve, kid, key)
  {
    if entries != [] {
      var n := |entries| - 1;
      UsableExactly(entries[..n], onCurve);
      forall kid, key
        ensures (kid, key) in Usable(entries, onCurve) <==>
                exists i | 0 <= i < |entries| :: Yields(entries[i], onCurve, kid, key)
      {
        if i :| 0 <= i < |entries| && Yields(entries[i], onCurve, kid, key) {
          if i < n {
            assert Yields(entries[..n][i], onCurve, kid, key);
          }
        }
        if (kid, key) in Usable(entries[..n], onCurve) {
          var i :| 0 <= i < n && Yields(entries[..n][i], onCurve, kid, key);
          assert Yields(entries[i], onCurve, kid, key);
        }
      }
    }
  }

  /** Collecting into a hash map: a later pair replaces an earlier one with the same kid. */
  function Collect(pairs: seq<(Kid, Key)>): map<Kid, Key> {
    if pairs == [] then map[]
    else
      var (kid, key) := pairs[|pairs| - 1];
      Collect(pairs[..|pairs| - 1])[kid := key]
  }

  /** The key map a successful fetch of this body installs; None where the fetch fails. */
  function KeysOf(body: Body, onCurve: Key -> bool): Option<map<Kid, Key>> {
    if !body.Entries? || Usable(body.entries, onCurve) == [] then None
    else Some(Collect(Usable(body.entries, onCurve)))
  }

  lemma {:induction false} CollectExactly(pairs: seq<(Kid, Key)>)
    ensures forall kid :: kid in Collect(pairs) <==> exists key :: (kid, key) in pairs
    ensures forall kid | kid in Collect(pairs) :: (kid, Collect(pairs)[kid]) in pairs
  {
    if pairs != [] {
      var n := |pairs| - 1;
      CollectExactly(pairs[..n]);
      assert pairs == pairs[..n] + [pairs[n]];
      assert pairs[n] == (pairs[n].0, pairs[n].1);
      forall kid, key
        ensures (kid, key) in pairs <==> (kid, key) in pairs[..n] || (kid, key) == pairs[n]
      {
      }
    }
  }

  predicate Carries(entry: Option<CoseKey>, onCurve: Key -> bool, kid: Kid) {
    entry.Some? && kid != [] && entry.value.keyId == kid && P256Key(entry.value, onCurve).Ok?
  }

  /** Entry i yields the pair, and no later entry yields a key for the kid. */
  ghost predicate LastYield(entries: seq<Option<CoseKey>>, onCurve: Key -> bool, kid: Kid, key: Key, i: nat) {
    && i < |entries|
    && Yields(entries[i], onCurve, kid, key)
    && forall j | i < j < |entries| :: !Carries(entries[j], onCurve, kid)
  }

  lemma LastYieldStays(entries: seq<Option<CoseKey>>, onCurve: Key -> bool, kid: Kid, key: Key, i: nat)
    requires entries != []
    requires LastYield(entries[..|entries| - 1], onCurve, kid, key, i)
    requires !Carries(entries[|entries| - 1], onCurve, kid)
    ensures LastYield(entries, onCurve, kid, key, i)
  {
    var front := entries[..|entries| - 1];
    forall j | i < j < |entries|
      ensures !Carries(entries[j], onCurve, kid)
    {
      assert j < |front| ==> entries[j] == front[j];
    }
  }

  lemma CollectPair(pairs: seq<(Kid, Key)>, kid: Kid, key: Key)
    ensures Collect(pairs + [(kid, key)]) == Collect(pairs)[kid := key]
  {
    assert (pairs + [(kid, key)])[..|pairs|] == pairs;
  }

  lemma CollectOneMore(entries: seq<Option<CoseKey>>, onCurve: Key -> bool)
    requires entries != []
    ensures var front, e := Collect(Usable(entries[..|entries| - 1], onCurve)), entries[|entries| - 1];
            Collect(Usable(entries, onCurve)) ==
              if e.Some? && P256Key(e.value, onCurve).Ok? && e.value.keyId != []
              then front[e.value.keyId := P256Key(e.value, onCurve).value] else front
  {
    var front, e := Usable(entries[..|entries| - 1], onCurve), entries[|entries| - 1];
    if e.Some? && P256Key(e.value, onCurve).Ok? && e.value.keyId != [] {
      CollectPair(front, e.value.keyId, P256Key(e.value, onCurve).value);
    } else {
      assert front + [] == front;
    }
  }

  lemma {:induction false} CollectedIsLast(entries: seq<Option<CoseKey>>, onCurve: Key -> bool, kid: Kid)
    returns (i: nat)
    requires kid in Collect(Usable(entries, onCurve))
    ensures LastYield(entries, onCurve, kid, Collect(Usable(entries, onCurve))[kid], i)
  {
    var n := |entries| - 1;
    CollectOneMore(entries, onCurve);
    KidsAreNotEmpty(entries, onCurve);
    if Carries(entries[n], onCurve, kid) {
      i := n;
    } else {
      i := CollectedIsLast(entries[..n], onCurve, kid);
      LastYieldStays(entries, onCurve, kid, Collect(Usable(entries[..n], onCurve))[kid], i);
    }
  }

  lemma {:induction false} KidsAreNotEmpty(entries: seq<Option<CoseKey>>, onCurve: Key -> bool)
    ensures [] !in Collect(Usable(entries, onCurve))
  {
    if entries != [] {
      KidsAreNotEmpty(entries[..|entries| - 1], onCurve);
      CollectOneMore(entries, onCurve);
    }
  }

  /** A kid is installed exactly when some published entry yields it, and with the key of the last such entry. */
  lemma InstalledKidsExactly(body: Body, onCurve: Key -> bool, kid: Kid)
    requires KeysOf(body, onCurve).Some?
    ensures var keys := KeysOf(body, onCurve).value;
            && (kid in keys <==> exists i, key | 0 <= i < |body.entries| :: Yields(body.entries[i], onCurve, kid, key))
            && (kid in keys ==> exists i: nat :: LastYield(body.entries, onCurve, kid, keys[kid], i))
  {
    var pairs := Usable(body.entries, onCurve);
    UsableExactly(body.entries, onCurve);
    CollectExactly(pairs);
    if i, key :| 0 <= i < |body.entries| && Yields(body.entries[i], onCurve, kid, key) {
      assert (kid, key) in pairs;
    }
    if kid in Collect(pairs) {
      var i := CollectedIsLast(body.entries, onCurve, kid);
    }
  }
}
