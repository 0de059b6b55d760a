/**
 * The device/telemetry ledger. Each device is keyed by its Ed25519 public
 * key and carries a GPS position, a temperature and a sequence number that
 * protects against replayed inputs.
 */
module DeviceApp {
  import opened Common

  /** A device record as stored in the ledger. */
  datatype Device = Device(sequence: nat, latitude: real, longitude: real, temperature: real)

  /** One signed update of one device. */
  datatype Input = Input(pubKey: Bytes, signature: Bytes, sequence: nat,
                         latitude: real, longitude: real, temperature: real)

  datatype Tx = Tx(inputs: seq<Input>)

  /** A device as loaded from the store, with the key it was read under. */
  datatype LoadedDevice = LoadedDevice(pubKey: Bytes, device: Device)

  /** The parsed value of the "init" option. */
  datatype Status = Status(latitude: real, longitude: real, temperature: real)
  datatype InitOptions = InitOptions(seed: string, status: Status)

  /**
   * The collaborators the application calls but does not define: the
   * crypto adapter, the protobuf codecs (a failed decode carries the
   * thrown error's text) and the JSON parse of an option value.
   */
  datatype Env = Env(
    crypto: Crypto,
    encodeTx: Tx -> Bytes,
    decodeTx: Bytes -> Result<Tx, string>,
    encodeDevice: Device -> Bytes,
    decodeDevice: Bytes -> Device,
    parseInitOptions: string -> Option<InitOptions>)

  /** What `setOption` does: creates a device, only logs, or throws. */
  datatype SetOptionResult = Initialized(pubKey: Bytes, device: Device) | Ignored(log: string) | Threw

  const BadLatitude := Response(EncodingError, "Input latitude is invalid")
  const BadLongitude := Response(EncodingError, "Input longitude is invalid")
  const UnknownDevice := Response(UnknownAccount, "Input device does not exist")
  const InvalidSequence := Response(BadNonce, "Invalid sequence")

  // ---------------------------------------------------------------------
  // Validation (checkTx only)
  // ---------------------------------------------------------------------

  function Abs(x: real): real
  {
    if x < 0.0 then -x else x
  }

  /** Every check of validateInput that precedes the signature holds. */
  predicate WellFormed(input: Input)
  {
    && Abs(input.latitude) <= 90.0
    && Abs(input.longitude) <= 180.0
    && |input.pubKey| == PubKeyLength
    && |input.signature| == SignatureLength
  }

  /**
   * validateInput: latitude, longitude, key length, signature length and
   * finally the signature, reporting only the first check that fails.
   */
  function ValidateInput(input: Input, signBytes: Bytes, verify: (Bytes, Bytes, Bytes) -> bool): (r: Check)
    ensures r.Pass? <==> WellFormed(input) && verify(input.pubKey, signBytes, input.signature)
    ensures r == Reject(BadLatitude) <==> Abs(input.latitude) > 90.0
    ensures r == Reject(BadLongitude) <==> Abs(input.latitude) <= 90.0 && Abs(input.longitude) > 180.0
    ensures r == Reject(BadPubKeyLength) <==>
              Abs(input.latitude) <= 90.0 && Abs(input.longitude) <= 180.0 && |input.pubKey| != PubKeyLength
    ensures r == Reject(BadSignatureLength) <==>
              Abs(input.latitude) <= 90.0 && Abs(input.longitude) <= 180.0 && |input.pubKey| == PubKeyLength
              && |input.signature| != SignatureLength
    ensures r == Reject(InvalidSignature) <==> WellFormed(input) && !verify(input.pubKey, signBytes, input.signature)
  {
    if Abs(input.latitude) > 90.0 then Reject(BadLatitude)
    else if Abs(input.longitude) > 180.0 then Reject(BadLongitude)
    else if |input.pubKey| != PubKeyLength then Reject(BadPubKeyLength)
    else if |input.signature| != SignatureLength then Reject(BadSignatureLength)
    else if !verify(input.pubKey, signBytes, input.signature) then Reject(InvalidSignature)
    else Pass
  }

  /** The transaction with every input's signature emptied. */
  function Unsigned(tx: Tx): Tx
  {
    Tx(seq(|tx.inputs|, i requires 0 <= i < |tx.inputs| => tx.inputs[i].(signature := [])))
  }

  /** The message every input's signature must authenticate. */
  function SignBytes(tx: Tx, env: Env): Bytes
  {
    env.encodeTx(Unsigned(tx))
  }

  /**
   * txSignBytes: empties the signature of every input of a copy of the
   * transaction, then encodes the copy.
   */
  method TxSignBytes(tx: Tx, encode: Tx -> Bytes) returns (signBytes: Bytes)
    ensures signBytes == encode(Unsigned(tx))
  {
    var copy := tx.inputs;
    var i := 0;
    while i < |copy|
      invariant |copy| == |tx.inputs|
      invariant 0 <= i <= |copy|
      invariant forall j :: 0 <= j < i ==> copy[j] == tx.inputs[j].(signature := [])
      invariant forall j :: i <= j < |copy| ==> copy[j] == tx.inputs[j]
    {
      copy := copy[i := copy[i].(signature := [])];
      i := i + 1;
    }
    assert Tx(copy) == Unsigned(tx);
    signBytes := encode(Tx(copy));
  }

  /** Two transactions that differ at most in their signatures have the same sign-bytes. */
  lemma {:induction false} SignBytesIgnoreSignatures(tx1: Tx, tx2: Tx, env: Env)
    requires |tx1.inputs| == |tx2.inputs|
    requires forall i :: 0 <= i < |tx1.inputs| ==>
               tx1.inputs[i].(signature := []) == tx2.inputs[i].(signature := [])
    ensures SignBytes(tx1, env) == SignBytes(tx2, env)
  {
    assert Unsigned(tx1).inputs == Unsigned(tx2).inputs;
  }

  /**
   * The unsigned copy keeps the inputs in order, with every field but the
   * signature unchanged, and emptying the signatures twice changes nothing.
   */
  lemma UnsignedKeepsInputs(tx: Tx)
    ensures |Unsigned(tx).inputs| == |tx.inputs|
    ensures forall i :: 0 <= i < |tx.inputs| ==>
              var u := Unsigned(tx).inputs[i];
              && u.signature == []
              && u.pubKey == tx.inputs[i].pubKey
              && u.sequence == tx.inputs[i].sequence
              && u.latitude == tx.inputs[i].latitude
              && u.longitude == tx.inputs[i].longitude
              && u.temperature == tx.inputs[i].temperature
    ensures Unsigned(Unsigned(tx)) == Unsigned(tx)
  {
  }

  /** The keys of the inputs before position `i`: the `seenPubKeys` dictionary when input `i` is reached. */
  function KeysBefore(inputs: seq<Input>, i: nat): set<Bytes>
    requires i <= |inputs|
  {
    set j | 0 <= j < i :: inputs[j].pubKey
  }

  /** What validateTx's loop decides at input `i`, once it gets there. */
  function StepCheck(inputs: seq<Input>, i: nat, signBytes: Bytes, verify: (Bytes, Bytes, Bytes) -> bool): Check
    requires i < |inputs|
  {
    match ValidateInput(inputs[i], signBytes, verify)
    case Reject(response) => Reject(response)
    case Pass => if inputs[i].pubKey in KeysBefore(inputs, i) then Reject(DuplicatePubKey) else Pass
  }

  /**
   * `r` is validateTx's verdict on `tx`: an empty transaction is rejected
   * outright; otherwise the inputs are scanned in order and the verdict is
   * the first step that rejects, or `Pass` when none does.
   */
  ghost predicate IsVerdict(tx: Tx, env: Env, r: Check)
  {
    var signBytes := SignBytes(tx, env);
    var verify := env.crypto.verify;
    if |tx.inputs| == 0 then r == Reject(EmptyTx)
    else if r.Pass? then forall i :: 0 <= i < |tx.inputs| ==> StepCheck(tx.inputs, i, signBytes, verify).Pass?
    else exists i :: 0 <= i < |tx.inputs|
                     && (forall j :: 0 <= j < i ==> StepCheck(tx.inputs, j, signBytes, verify).Pass?)
                     && StepCheck(tx.inputs, i, signBytes, verify) == r
  }

  /** validateTx: the pre-consensus checks, reporting the first violation. */
  method ValidateTx(tx: Tx, env: Env) returns (r: Check)
    ensures IsVerdict(tx, env, r)
  {
    if |tx.inputs| == 0 {
      return Reject(EmptyTx);
    }
    var seenPubKeys: set<Bytes> := {};
    var signBytes := TxSignBytes(tx, env.encodeTx);
    assert signBytes == SignBytes(tx, env);
    var i := 0;
    while i < |tx.inputs|
      invariant 0 <= i <= |tx.inputs|
      invariant seenPubKeys == KeysBefore(tx.inputs, i)
      invariant forall j :: 0 <= j < i ==> StepCheck(tx.inputs, j, signBytes, env.crypto.verify).Pass?
    {
      var input := tx.inputs[i];
      var c := ValidateInput(input, signBytes, env.crypto.verify);
      if c.Reject? {
        assert StepCheck(tx.inputs, i, signBytes, env.crypto.verify) == c;
        return c;
      }
      if input.pubKey in seenPubKeys {
        assert StepCheck(tx.inputs, i, signBytes, env.crypto.verify) == Reject(DuplicatePubKey);
        return Reject(DuplicatePubKey);
      }
      seenPubKeys := seenPubKeys + {input.pubKey};
      assert KeysBefore(tx.inputs, i + 1) == KeysBefore(tx.inputs, i) + {input.pubKey};
      i := i + 1;
    }
    return Pass;
  }

  /** validateTx reaches exactly one verdict on a transaction, so checkTx is repeatable. */
  lemma {:induction false} VerdictUnique(tx: Tx, env: Env, r1: Check, r2: Check)
    requires IsVerdict(tx, env, r1) && IsVerdict(tx, env, r2)
    ensures r1 == r2
  {

  }

  /**
   * validateTx accepts exactly the non-empty transactions whose inputs are
   * all well formed, all correctly signed over the sign-bytes, and signed by
   * pairwise distinct keys.
   */
  lemma {:induction false} AcceptedIff(tx: Tx, env: Env)
    ensures IsVerdict(tx, env, Pass) <==>
              && |tx.inputs| > 0
              && (forall i :: 0 <= i < |tx.inputs| ==>
                    WellFormed(tx.inputs[i])
                    && env.crypto.verify(tx.inputs[i].pubKey, SignBytes(tx, env), tx.inputs[i].signature))
              && (forall i, j :: 0 <= i < j < |tx.inputs| ==> tx.inputs[i].pubKey != tx.inputs[j].pubKey)
  {
    var signBytes := SignBytes(tx, env);
    var verify := env.crypto.verify;
    if IsVerdict(tx, env, Pass) {
      forall i, j | 0 <= i < j < |tx.inputs| ensures tx.inputs[i].pubKey != tx.inputs[j].pubKey {
        assert tx.inputs[i].pubKey in KeysBefore(tx.inputs, j);
        assert StepCheck(tx.inputs, j, signBytes, verify).Pass?;
      }
      forall i | 0 <= i < |tx.inputs|
        ensures WellFormed(tx.inputs[i]) && verify(tx.inputs[i].pubKey, signBytes, tx.inputs[i].signature)
      {
        assert StepCheck(tx.inputs, i, signBytes, verify).Pass?;
      }
    }
  }

  /**
   * A repeated key is reported as a duplicate only once the repeated input
   * has passed its own checks: with a bad signature on it, the verdict is
   * Unauthorized, not EncodingError.
   */
  lemma DuplicateReportedAfterOwnChecks(tx: Tx, env: Env, i: nat)
    requires i < |tx.inputs|
    requires forall j :: 0 <= j < i ==> StepCheck(tx.inputs, j, SignBytes(tx, env), env.crypto.verify).Pass?
    requires tx.inputs[i].pubKey in KeysBefore(tx.inputs, i)
    ensures ValidateInput(tx.inputs[i], SignBytes(tx, env), env.crypto.verify).Pass? ==>
              IsVerdict(tx, env, Reject(DuplicatePubKey))
    ensures WellFormed(tx.inputs[i]) && !env.crypto.verify(tx.inputs[i].pubKey, SignBytes(tx, env), tx.inputs[i].signature) ==>
              IsVerdict(tx, env, Reject(InvalidSignature))
  {
    assert StepCheck(tx.inputs, i, SignBytes(tx, env), env.crypto.verify) ==
           if ValidateInput(tx.inputs[i], SignBytes(tx, env), env.crypto.verify).Pass? then Reject(DuplicatePubKey)
           else ValidateInput(tx.inputs[i], SignBytes(tx, env), env.crypto.verify);
  }

  // ---------------------------------------------------------------------
  // Execution (appendTx only)
  // ---------------------------------------------------------------------

  /** getAllPubKeys: the inputs' keys, in input order. */
  function GetAllPubKeys(tx: Tx): (keys: seq<Bytes>)
    ensures |keys| == |tx.inputs|
    ensures forall i :: 0 <= i < |tx.inputs| ==> keys[i] == tx.inputs[i].pubKey
  {
    seq(|tx.inputs|, i requires 0 <= i < |tx.inputs| => tx.inputs[i].pubKey)
  }

  /** The device map while executeTx runs: still going, or stopped with a response. */
  datatype Progress = Running(devices: map<Bytes, Device>) | Halted(response: Response)

  /** One pass of executeTx's loop body over the device map. */
  function StepInput(devices: map<Bytes, Device>, input: Input): Progress
  {
    if input.pubKey !in devices then Halted(UnknownDevice)
    else
      var dev := devices[input.pubKey];
      if dev.sequence != input.sequence then Halted(InvalidSequence)
      else Running(devices[input.pubKey := Device(dev.sequence + 1, input.latitude, input.longitude, input.temperature)])
  }

  /** executeTx's loop run over `inputs`, in order, from the loaded map. */
  function RunInputs(inputs: seq<Input>, devices: map<Bytes, Device>): (p: Progress)
    ensures p.Running? ==> p.devices.Keys == devices.Keys
    ensures p.Running? ==> forall i :: 0 <= i < |inputs| ==> inputs[i].pubKey in devices
    decreases |inputs|
  {
    if inputs == [] then Running(devices)
    else
      match RunInputs(inputs[..|inputs| - 1], devices)
      case Halted(response) => Halted(response)
      case Running(current) => StepInput(current, inputs[|inputs| - 1])
  }

  /**
   * executeTx's result: the pushed devices in input order, or the first
   * failure. The same device object is pushed once per input naming it and
   * is persisted only after the loop, so every entry shows its device's
   * state at the end of the loop.
   */
  function Execute(inputs: seq<Input>, devMap: map<Bytes, Device>): Result<seq<LoadedDevice>, Response>
  {
    match RunInputs(inputs, devMap)
    case Halted(response) => Err(response)
    case Running(final) =>
      Ok(seq(|inputs|, i requires 0 <= i < |inputs| => LoadedDevice(inputs[i].pubKey, final[inputs[i].pubKey])))
  }

  /** Once the loop stops, the remaining inputs do not matter. */
  lemma {:induction false} HaltedStaysHalted(inputs: seq<Input>, n: nat, devMap: map<Bytes, Device>)
    requires n <= |inputs|
    requires RunInputs(inputs[..n], devMap).Halted?
    ensures RunInputs(inputs, devMap) == RunInputs(inputs[..n], devMap)
    decreases |inputs| - n
  {
    if n < |inputs| {
      assert inputs[..|inputs| - 1][..n] == inputs[..n];
      HaltedStaysHalted(inputs[..|inputs| - 1], n, devMap);
    } else {
      assert inputs[..n] == inputs;
    }
  }

  /** One more input: a failing step fails the whole run, a passing one extends it. */
  lemma RunInputsStep(inputs: seq<Input>, i: nat, devMap: map<Bytes, Device>, devices: map<Bytes, Device>)
    requires i < |inputs|
    requires RunInputs(inputs[..i], devMap) == Running(devices)
    ensures StepInput(devices, inputs[i]).Halted? ==>
              Execute(inputs, devMap) == Err(StepInput(devices, inputs[i]).response)
    ensures StepInput(devices, inputs[i]).Running? ==>
              RunInputs(inputs[..i + 1], devMap) == StepInput(devices, inputs[i])
  {
    assert inputs[..i + 1][..i] == inputs[..i];
    if StepInput(devices, inputs[i]).Halted? {
      HaltedStaysHalted(inputs, i + 1, devMap);
    }
  }

  /** A complete run yields each input's key with its entry in the final map. */
  lemma ExecuteOfRun(inputs: seq<Input>, devMap: map<Bytes, Device>, final: map<Bytes, Device>)
    requires RunInputs(inputs, devMap) == Running(final)
    ensures Execute(inputs, devMap).Ok?
    ensures |Execute(inputs, devMap).value| == |inputs|
    ensures forall j :: 0 <= j < |inputs| ==>
              inputs[j].pubKey in final && Execute(inputs, devMap).value[j] == LoadedDevice(inputs[j].pubKey, final[inputs[j].pubKey])
  {
  }

  /** executeTx: applies the inputs in order to the loaded devices. */
  method ExecuteTx(tx: Tx, devMap: map<Bytes, Device>) returns (r: Result<seq<LoadedDevice>, Response>)
    ensures r == Execute(tx.inputs, devMap)
  {
    var devices := devMap;        // the loaded device objects, updated in place
    var pushed: seq<Bytes> := [];  // the key of each object pushed, in order
    var i := 0;
    while i < |tx.inputs|
      invariant 0 <= i <= |tx.inputs|
      invariant RunInputs(tx.inputs[..i], devMap) == Running(devices)
      invariant |pushed| == i && forall j :: 0 <= j < i ==> pushed[j] == tx.inputs[j].pubKey
    {
      var input := tx.inputs[i];
      RunInputsStep(tx.inputs, i, devMap, devices);
      if input.pubKey !in devices {
        return Err(UnknownDevice);
      }
      var dev := devices[input.pubKey];
      if dev.sequence != input.sequence {
        return Err(InvalidSequence);
      }
      devices := devices[input.pubKey := Device(dev.sequence + 1, input.latitude, input.longitude, input.temperature)];
      pushed := pushed + [input.pubKey];
      i := i + 1;
    }
    assert tx.inputs[..i] == tx.inputs;
    ExecuteOfRun(tx.inputs, devMap, devices);
    assert forall j :: 0 <= j < |pushed| ==> pushed[j] in devices;
    var out := seq(|pushed|, j requires 0 <= j < |pushed| => LoadedDevice(pushed[j], devices[pushed[j]]));
    assert out == Execute(tx.inputs, devMap).value;
    r := Ok(out);
  }

  // Closed form of executeTx ------------------------------------------------

  /** How many of `inputs` name `k`. */
  function Occurrences(inputs: seq<Input>, k: Bytes): nat
    decreases |inputs|
  {
    if inputs == [] then 0
    else Occurrences(inputs[..|inputs| - 1], k) + (if inputs[|inputs| - 1].pubKey == k then 1 else 0)
  }

  /** The last of `inputs` that names `k`, if any. */
  function LastInput(inputs: seq<Input>, k: Bytes): Option<Input>
    decreases |inputs|
  {
    if inputs == [] then None
    else if inputs[|inputs| - 1].pubKey == k then Some(inputs[|inputs| - 1])
    else LastInput(inputs[..|inputs| - 1], k)
  }

  /**
   * Input `i` gets through executeTx once all inputs before it have: its
   * device is loaded, and its sequence equals the stored one bumped once for
   * every earlier input naming the same device.
   */
  predicate Admitted(devMap: map<Bytes, Device>, inputs: seq<Input>, i: nat)
    requires i < |inputs|
  {
    var k := inputs[i].pubKey;
    k in devMap && inputs[i].sequence == devMap[k].sequence + Occurrences(inputs[..i], k)
  }

  /** Device `dev`, stored under `k`, once all of `inputs` have been applied. */
  function Final(dev: Device, inputs: seq<Input>, k: Bytes): Device
  {
    match LastInput(inputs, k)
    case None => dev
    case Some(last) => Device(dev.sequence + Occurrences(inputs, k), last.latitude, last.longitude, last.temperature)
  }

  lemma {:induction false} NoLastInputNoOccurrence(inputs: seq<Input>, k: Bytes)
    ensures LastInput(inputs, k).None? <==> Occurrences(inputs, k) == 0
    decreases |inputs|
  {
    if inputs != [] {
      NoLastInputNoOccurrence(inputs[..|inputs| - 1], k);
    }
  }

  /** A device's final sequence is its stored one plus one per input naming it. */
  lemma FinalSequence(dev: Device, inputs: seq<Input>, k: Bytes)
    ensures Final(dev, inputs, k).sequence == dev.sequence + Occurrences(inputs, k)
  {
    NoLastInputNoOccurrence(inputs, k);
  }

  /** Whether an input is admitted depends only on the inputs up to it. */
  lemma AdmittedInPrefix(devMap: map<Bytes, Device>, inputs: seq<Input>, n: nat)
    requires n <= |inputs|
    ensures forall i :: 0 <= i < n ==> Admitted(devMap, inputs, i) == Admitted(devMap, inputs[..n], i)
  {
    forall i | 0 <= i < n ensures Admitted(devMap, inputs, i) == Admitted(devMap, inputs[..n], i) {
      assert inputs[..i] == inputs[..n][..i];
    }
  }

  /** When executeTx's loop runs to the end, it leaves every loaded device in its `Final` state. */
  lemma {:induction false} RunningFinal(inputs: seq<Input>, devMap: map<Bytes, Device>)
    requires RunInputs(inputs, devMap).Running?
    ensures forall k :: k in devMap ==> RunInputs(inputs, devMap).devices[k] == Final(devMap[k], inputs, k)
    decreases |inputs|
  {
    if inputs != [] {
      var n := |inputs| - 1;
      var prefix := inputs[..n];
      var x := inputs[n];
      RunningFinal(prefix, devMap);
      var current := RunInputs(prefix, devMap).devices;
      FinalSequence(devMap[x.pubKey], prefix, x.pubKey);
      forall k | k in devMap
        ensures RunInputs(inputs, devMap).devices[k] == Final(devMap[k], inputs, k)
      {
        if k != x.pubKey {
          assert LastInput(inputs, k) == LastInput(prefix, k);
          assert Occurrences(inputs, k) == Occurrences(prefix, k);
        }
      }
    }
  }

  /** executeTx's loop runs to the end exactly when every input is admitted. */
  lemma {:induction false} RunningIffAdmitted(inputs: seq<Input>, devMap: map<Bytes, Device>)
    ensures RunInputs(inputs, devMap).Running? <==>
              forall i :: 0 <= i < |inputs| ==> Admitted(devMap, inputs, i)
    decreases |inputs|
  {
    if inputs != [] {
      var n := |inputs| - 1;
      var prefix := inputs[..n];
      var x := inputs[n];
      RunningIffAdmitted(prefix, devMap);
      AdmittedInPrefix(devMap, inputs, n);
      if RunInputs(prefix, devMap).Running? {
        RunningFinal(prefix, devMap);
        if x.pubKey in devMap {
          FinalSequence(devMap[x.pubKey], prefix, x.pubKey);
        }
        assert Admitted(devMap, inputs, n) <==> StepInput(RunInputs(prefix, devMap).devices, x).Running?;
      } else {
        var i :| 0 <= i < n && !Admitted(devMap, prefix, i);
        assert !Admitted(devMap, inputs, i);
      }
    }
  }

  /**
   * When executeTx's loop stops, it stops at the first input not admitted:
   * UnknownAccount for a device not loaded, BadNonce for a stale sequence.
   */
  lemma {:induction false} HaltedAtFirst(inputs: seq<Input>, devMap: map<Bytes, Device>)
    requires RunInputs(inputs, devMap).Halted?
    ensures exists i :: 0 <= i < |inputs|
                        && (forall j :: 0 <= j < i ==> Admitted(devMap, inputs, j))
                        && !Admitted(devMap, inputs, i)
                        && RunInputs(inputs, devMap).response ==
                           (if inputs[i].pubKey !in devMap then UnknownDevice else InvalidSequence)
    decreases |inputs|
  {
    var n := |inputs| - 1;
    var prefix := inputs[..n];
    var x := inputs[n];
    AdmittedInPrefix(devMap, inputs, n);
    if RunInputs(prefix, devMap).Halted? {
      HaltedAtFirst(prefix, devMap);
      var i :| 0 <= i < n
               && (forall j :: 0 <= j < i ==> Admitted(devMap, prefix, j))
               && !Admitted(devMap, prefix, i)
               && RunInputs(prefix, devMap).response ==
                  (if prefix[i].pubKey !in devMap then UnknownDevice else InvalidSequence);
      assert !Admitted(devMap, inputs, i);
    } else {
      RunningIffAdmitted(prefix, devMap);
      RunningFinal(prefix, devMap);
      if x.pubKey in devMap {
        FinalSequence(devMap[x.pubKey], prefix, x.pubKey);
      }
      assert !Admitted(devMap, inputs, n);
    }
  }

  /**
   * executeTx succeeds exactly when every input is admitted; then it
   * returns one entry per input, in input order, each keyed by its input's
   * key and holding that device's final state.
   */
  lemma ExecuteSucceeds(inputs: seq<Input>, devMap: map<Bytes, Device>)
    ensures Execute(inputs, devMap).Ok? <==> forall i :: 0 <= i < |inputs| ==> Admitted(devMap, inputs, i)
    ensures Execute(inputs, devMap).Ok? ==>
              var out := Execute(inputs, devMap).value;
              && |out| == |inputs|
              && forall i :: 0 <= i < |inputs| ==>
                   && out[i].pubKey == inputs[i].pubKey
                   && out[i].device == Final(devMap[inputs[i].pubKey], inputs, inputs[i].pubKey)
  {
    RunningIffAdmitted(inputs, devMap);
    if RunInputs(inputs, devMap).Running? {
      RunningFinal(inputs, devMap);
    }
  }

  /**
   * executeTx fails at the first input that is not admitted: UnknownAccount
   * when its device was not loaded, BadNonce when its sequence is stale.
   */
  lemma ExecuteFailsAtFirstBadInput(inputs: seq<Input>, devMap: map<Bytes, Device>)
    ensures Execute(inputs, devMap).Err? ==>
              exists i :: 0 <= i < |inputs|
                          && (forall j :: 0 <= j < i ==> Admitted(devMap, inputs, j))
                          && !Admitted(devMap, inputs, i)
                          && Execute(inputs, devMap).error ==
                             (if inputs[i].pubKey !in devMap then UnknownDevice else InvalidSequence)
  {
    if RunInputs(inputs, devMap).Halted? {
      HaltedAtFirst(inputs, devMap);
    }
  }

  lemma {:induction false} DistinctOccurrences(inputs: seq<Input>, i: nat)
    requires i < |inputs|
    requires forall a, b :: 0 <= a < b < |inputs| ==> inputs[a].pubKey != inputs[b].pubKey
    ensures Occurrences(inputs, inputs[i].pubKey) == 1
    ensures LastInput(inputs, inputs[i].pubKey) == Some(inputs[i])
    ensures Occurrences(inputs[..i], inputs[i].pubKey) == 0
    decreases |inputs|
  {
    var n := |inputs| - 1;
    var prefix := inputs[..n];
    NoOccurrence(inputs[..i], inputs[i].pubKey);
    if i < n {
      DistinctOccurrences(prefix, i);
    } else {
      NoOccurrence(prefix, inputs[i].pubKey);
      NoLastInputNoOccurrence(prefix, inputs[i].pubKey);
    }
  }

  lemma {:induction false} NoOccurrence(inputs: seq<Input>, k: Bytes)
    requires forall j :: 0 <= j < |inputs| ==> inputs[j].pubKey != k
    ensures Occurrences(inputs, k) == 0
    decreases |inputs|
  {
    if inputs != [] {
      NoOccurrence(inputs[..|inputs| - 1], k);
    }
  }

  /**
   * With pairwise distinct keys (what checkTx would have required),
   * executeTx succeeds exactly when every device exists and every input
   * carries its device's current sequence; each device then has its
   * sequence bumped by exactly one and its fields replaced by its input's.
   */
  lemma DistinctKeysExecution(inputs: seq<Input>, devMap: map<Bytes, Device>)
    requires forall a, b :: 0 <= a < b < |inputs| ==> inputs[a].pubKey != inputs[b].pubKey
    ensures Execute(inputs, devMap).Ok? <==>
              forall i :: 0 <= i < |inputs| ==>
                inputs[i].pubKey in devMap && devMap[inputs[i].pubKey].sequence == inputs[i].sequence
    ensures Execute(inputs, devMap).Ok? ==>
              forall i :: 0 <= i < |inputs| ==>
                Execute(inputs, devMap).value[i] ==
                LoadedDevice(inputs[i].pubKey,
                             Device(devMap[inputs[i].pubKey].sequence + 1,
                                    inputs[i].latitude, inputs[i].longitude, inputs[i].temperature))
  {
    ExecuteSucceeds(inputs, devMap);
    forall i | 0 <= i < |inputs|
      ensures Admitted(devMap, inputs, i) <==>
              inputs[i].pubKey in devMap && devMap[inputs[i].pubKey].sequence == inputs[i].sequence
    {
      DistinctOccurrences(inputs, i);
    }
    if Execute(inputs, devMap).Ok? {
      forall i | 0 <= i < |inputs|
        ensures Final(devMap[inputs[i].pubKey], inputs, inputs[i].pubKey) ==
                Device(devMap[inputs[i].pubKey].sequence + 1,
                       inputs[i].latitude, inputs[i].longitude, inputs[i].temperature)
      {
        DistinctOccurrences(inputs, i);
      }
    }
  }

  /**
   * appendTx does not check for duplicate keys: a second input naming the
   * same device sees the sequence the first one bumped, and the one device,
   * in its final state, is pushed twice.
   */
  lemma DuplicateInputsShareDevice(a: Input, b: Input, devMap: map<Bytes, Device>)
    requires a.pubKey == b.pubKey && a.pubKey in devMap
    requires a.sequence == devMap[a.pubKey].sequence && b.sequence == a.sequence + 1
    ensures var dev := Device(a.sequence + 2, b.latitude, b.longitude, b.temperature);
            Execute([a, b], devMap) == Ok([LoadedDevice(a.pubKey, dev), LoadedDevice(a.pubKey, dev)])
  {
    var k := a.pubKey;
    assert [a, b][..1] == [a];
    assert [a][..0] == [];
    var afterA := devMap[k := Device(a.sequence + 1, a.latitude, a.longitude, a.temperature)];
    assert RunInputs([a], devMap) == Running(afterA);
    assert RunInputs([a, b], devMap) == StepInput(afterA, b);
    var dev := Device(a.sequence + 2, b.latitude, b.longitude, b.temperature);
    assert RunInputs([a, b], devMap) == Running(afterA[k := dev]);
    assert Execute([a, b], devMap).Ok?;
    var out := Execute([a, b], devMap).value;
    assert |out| == 2 && out[0] == LoadedDevice(k, dev) && out[1] == LoadedDevice(k, dev);
    assert out == [LoadedDevice(k, dev), LoadedDevice(k, dev)];
  }

  /**
   * appendTx applies no validation: a single input executes exactly when its
   * device exists with the sequence it carries, whatever its signature,
   * key length or coordinates.
   */
  lemma SingleInputExecution(x: Input, devMap: map<Bytes, Device>)
    ensures Execute([x], devMap).Ok? <==> x.pubKey in devMap && devMap[x.pubKey].sequence == x.sequence
  {
    assert [x][..0] == [];
    assert RunInputs([x], devMap) == StepInput(devMap, x);
  }

  /**
   * Replay protection: once an input has been applied, applying it again to
   * the updated device fails with BadNonce.
   */
  lemma ReplayIsRejected(x: Input, devMap: map<Bytes, Device>)
    requires Execute([x], devMap).Ok?
    ensures Execute([x], devMap[x.pubKey := Execute([x], devMap).value[0].device]) == Err(InvalidSequence)
  {
    assert [x][..0] == [];
    assert RunInputs([x], devMap) == StepInput(devMap, x);
    var updated := devMap[x.pubKey := Execute([x], devMap).value[0].device];
    assert RunInputs([x], updated) == StepInput(updated, x);
  }

  // ---------------------------------------------------------------------
  // Store adapter
  // ---------------------------------------------------------------------

  /** The device map loadDevices builds from a store snapshot. */
  function LoadedDevices(data: map<Bytes, Bytes>, pubKeys: seq<Bytes>, decode: Bytes -> Device): map<Bytes, Device>
  {
    map k | k in pubKeys && k in data && |data[k]| > 0 :: decode(data[k])
  }

  /** The writes storeDevices issues for a list of devices, in list order. */
  function Writes(devices: seq<LoadedDevice>, encode: Device -> Bytes): seq<(Bytes, Bytes)>
  {
    seq(|devices|, i requires 0 <= i < |devices| => (devices[i].pubKey, encode(devices[i].device)))
  }

  /**
   * After a successful executeTx, storing its output sets every input's key
   * to its device's final state and leaves every other key as it was.
   */
  lemma StoredAfterExecute(data: map<Bytes, Bytes>, inputs: seq<Input>, devMap: map<Bytes, Device>,
                           encode: Device -> Bytes)
    requires Execute(inputs, devMap).Ok?
    ensures var stored := ApplyWrites(data, Writes(Execute(inputs, devMap).value, encode));
            && (forall i :: 0 <= i < |inputs| ==>
                  var k := inputs[i].pubKey;
                  k in stored && k in devMap && stored[k] == encode(Final(devMap[k], inputs, k)))
            && (forall k :: k !in KeysBefore(inputs, |inputs|) ==>
                  (k in stored <==> k in data) && (k in data ==> stored[k] == data[k]))
  {
    var out := Execute(inputs, devMap).value;
    var final := RunInputs(inputs, devMap).devices;
    var writes := Writes(out, encode);
    var values := map k | k in final :: encode(final[k]);
    RunningFinal(inputs, devMap);
    forall i | 0 <= i < |writes|
      ensures writes[i].0 == inputs[i].pubKey && writes[i].0 in values && writes[i].1 == values[writes[i].0]
    {
    }
    ApplyAgreeingWrites(data, writes, values);
    WrittenInputKeys(inputs, writes);
  }

  lemma WrittenInputKeys(inputs: seq<Input>, writes: seq<(Bytes, Bytes)>)
    requires |writes| == |inputs|
    requires forall i :: 0 <= i < |writes| ==> writes[i].0 == inputs[i].pubKey
    ensures WrittenKeys(writes) == KeysBefore(inputs, |inputs|)
  {
    forall k | k in KeysBefore(inputs, |inputs|) ensures k in WrittenKeys(writes) {
      var i :| 0 <= i < |inputs| && inputs[i].pubKey == k;
      assert writes[i].0 == k;
    }
  }

  // ---------------------------------------------------------------------
  // The application
  // ---------------------------------------------------------------------

  /** The TMSP application over one merkle store. */
  class AutoDapp {
    const merkleClient: MerkleStore
    const env: Env

    constructor (merkleClient: MerkleStore, env: Env)
      ensures this.merkleClient == merkleClient && this.env == env
    {
      this.merkleClient := merkleClient;
      this.env := env;
    }

    /**
     * setOption: the "init" key creates a device with sequence 0 at the
     * key derived from the seed; any other key only logs.
     */
    method SetOption(key: string, value: string) returns (r: SetOptionResult)
      requires merkleClient.Valid()
      modifies merkleClient
      ensures merkleClient.Valid()
      ensures key != "init" ==> r == Ignored("Unrecognized option key " + key) && unchanged(merkleClient)
      ensures key == "init" && r.Threw? ==> unchanged(merkleClient)
      ensures key == "init" ==>
                match env.parseInitOptions(value)
                case None => r.Threw?
                case Some(opts) =>
                  match DeriveKeyPair(env.crypto, opts.seed)
                  case None => r.Threw?
                  case Some(pair) =>
                    var dev := Device(0, opts.status.latitude, opts.status.longitude, opts.status.temperature);
                    && r == Initialized(pair.pubKey, dev)
                    && merkleClient.writes == old(merkleClient.writes) + [(pair.pubKey, env.encodeDevice(dev))]
                    && merkleClient.data == old(merkleClient.data)[pair.pubKey := env.encodeDevice(dev)]
    {
      if key == "init" {
        var opts := env.parseInitOptions(value);
        if opts.None? {
          return Threw;  // JSON.parse or the field accesses throw
        }
        var status := opts.value.status;
        var pair := DeriveKeyPair(env.crypto, opts.value.seed);
        if pair.None? {
          return Threw;  // `pair.pubKeyBytes` on a null pair throws
        }
        var dev := Device(0, status.latitude, status.longitude, status.temperature);
        merkleClient.Set(pair.value.pubKey, env.encodeDevice(dev));
        r := Initialized(pair.value.pubKey, dev);
      } else {
        r := Ignored("Unrecognized option key " + key);
      }
    }

    /** checkTx: decode and validate only; the store is neither read nor written. */
    method CheckTx(data: Bytes) returns (resp: Response)
      ensures env.decodeTx(data).Err? ==> resp == Response(EncodingError, env.decodeTx(data).error)
      ensures env.decodeTx(data).Ok? ==>
                && (resp == Accepted <==> IsVerdict(env.decodeTx(data).value, env, Pass))
                && (resp != Accepted ==> IsVerdict(env.decodeTx(data).value, env, Reject(resp)))
    {
      var decoded := env.decodeTx(data);
      if decoded.Err? {
        return Response(EncodingError, decoded.error);
      }
      var c := ValidateTx(decoded.value, env);
      if c.Reject? {
        AcceptedNeverRejects(decoded.value, env, c);
        return c.response;
      }
      resp := Accepted;
    }

    /**
     * appendTx: decode, batch-load the named devices, execute, and write
     * the executed devices only if execution succeeded. No validation runs.
     */
    method AppendTx(data: Bytes) returns (resp: Response)
      requires merkleClient.Valid()
      modifies merkleClient
      ensures merkleClient.Valid()
      ensures env.decodeTx(data).Err? ==>
                resp == Response(EncodingError, env.decodeTx(data).error) && unchanged(merkleClient)
      ensures env.decodeTx(data).Ok? ==>
                var tx := env.decodeTx(data).value;
                var outcome := Execute(tx.inputs, LoadedDevices(old(merkleClient.data), GetAllPubKeys(tx), env.decodeDevice));
                && (outcome.Err? ==> resp == outcome.error && unchanged(merkleClient))
                && (outcome.Ok? ==>
                      && resp == Accepted
                      && merkleClient.writes == old(merkleClient.writes) + Writes(outcome.value, env.encodeDevice)
                      && merkleClient.data == ApplyWrites(old(merkleClient.data), Writes(outcome.value, env.encodeDevice)))
    {
      var decoded := env.decodeTx(data);
      if decoded.Err? {
        return Response(EncodingError, decoded.error);
      }
      var tx := decoded.value;
      var devMap := LoadDevices(GetAllPubKeys(tx));
      assert devMap == LoadedDevices(merkleClient.data, GetAllPubKeys(tx), env.decodeDevice);
      var executed := ExecuteTx(tx, devMap);
      if executed.Err? {
        return executed.error;
      }
      StoreDevices(executed.value);
      resp := Accepted;
    }

    /**
     * loadDevices: fetches every key, then folds the present ones into a
     * map from key to decoded device; keys whose stored bytes are empty are
     * dropped.
     */
    method LoadDevices(pubKeys: seq<Bytes>) returns (devMap: map<Bytes, Device>)
      ensures forall k :: k in devMap <==> k in pubKeys && |merkleClient.Get(k)| > 0
      ensures forall k :: k in devMap ==> devMap[k] == env.decodeDevice(merkleClient.Get(k))
    {
      // async.map: one lookup per key, in key order
      var devices: seq<Option<LoadedDevice>> := [];
      var i := 0;
      while i < |pubKeys|
        invariant 0 <= i <= |pubKeys| && |devices| == i
        invariant forall j :: 0 <= j < i ==>
                    devices[j] == if |merkleClient.Get(pubKeys[j])| == 0 then None
                                  else Some(LoadedDevice(pubKeys[j], env.decodeDevice(merkleClient.Get(pubKeys[j]))))
      {
        var devBytes := merkleClient.Get(pubKeys[i]);
        if |devBytes| == 0 {
          devices := devices + [None];
        } else {
          devices := devices + [Some(LoadedDevice(pubKeys[i], env.decodeDevice(devBytes)))];
        }
        i := i + 1;
      }
      // reduce: later entries overwrite earlier ones under the same key
      devMap := map[];
      i := 0;
      while i < |devices|
        invariant 0 <= i <= |devices|
        invariant forall k :: k in devMap <==> k in pubKeys[..i] && |merkleClient.Get(k)| > 0
        invariant forall k :: k in devMap ==> devMap[k] == env.decodeDevice(merkleClient.Get(k))
      {
        assert pubKeys[..i + 1] == pubKeys[..i] + [pubKeys[i]];
        if devices[i].Some? {
          devMap := devMap[devices[i].value.pubKey := devices[i].value.device];
        }
        i := i + 1;
      }
      assert pubKeys[..i] == pubKeys;
    }

    /** storeDevices: one write per device, keyed by its own key, in list order. */
    method StoreDevices(devices: seq<LoadedDevice>)
      requires merkleClient.Valid()
      modifies merkleClient
      ensures merkleClient.Valid()
      ensures merkleClient.writes == old(merkleClient.writes) + Writes(devices, env.encodeDevice)
      ensures merkleClient.data == ApplyWrites(old(merkleClient.data), Writes(devices, env.encodeDevice))
    {
      var i := 0;
      while i < |devices|
        invariant 0 <= i <= |devices|
        invariant merkleClient.Valid()
        invariant merkleClient.writes == old(merkleClient.writes) + Writes(devices[..i], env.encodeDevice)
        invariant merkleClient.data == ApplyWrites(old(merkleClient.data), Writes(devices[..i], env.encodeDevice))
      {
        var dev := devices[i];
        merkleClient.Set(dev.pubKey, env.encodeDevice(dev.device));
        assert Writes(devices[..i + 1], env.encodeDevice) ==
               Writes(devices[..i], env.encodeDevice) + [(dev.pubKey, env.encodeDevice(dev.device))];
        i := i + 1;
      }
      assert devices[..i] == devices;
    }
  }

  /** A rejecting verdict never carries the OK code. */
  lemma AcceptedNeverRejects(tx: Tx, env: Env, c: Check)
    requires IsVerdict(tx, env, c) && c.Reject?
    ensures c.response.code != OK
  {
  }

  /**
   * The test driver's opening steps: "init" creates the device of seed "1";
   * a transaction from it carrying sequence 0 is applied with OK, whatever
   * its signature, and stores the device with sequence 1 and the new
   * reading; applying the same transaction again is refused with BadNonce
   * and writes nothing.
   */
  method InitApplyReplay(env: Env, initValue: string, txBytes: Bytes, update: Input)
      returns (init: SetOptionResult, first: Response, replay: Response, stored: Bytes)
    requires env.parseInitOptions(initValue) == Some(InitOptions("1", Status(37.7938462, -122.394837, 65.0)))
    requires update.pubKey == env.crypto.keyPairFromSeed(env.crypto.sha256("1")).pubKey
    requires update.sequence == 0
    requires env.decodeTx(txBytes) == Ok(Tx([update]))
    // the two device records involved survive an encode/decode round trip
    requires var created := Device(0, 37.7938462, -122.394837, 65.0);
             |env.encodeDevice(created)| > 0 && env.decodeDevice(env.encodeDevice(created)) == created
    requires var updated := Device(1, update.latitude, update.longitude, update.temperature);
             |env.encodeDevice(updated)| > 0 && env.decodeDevice(env.encodeDevice(updated)) == updated
    ensures init == Initialized(update.pubKey, Device(0, 37.7938462, -122.394837, 65.0))
    ensures first == Accepted && replay == InvalidSequence
    ensures stored == env.encodeDevice(Device(1, update.latitude, update.longitude, update.temperature))
  {
    var store := new MerkleStore(map[]);
    var app := new AutoDapp(store, env);
    var pk := update.pubKey;
    var created := Device(0, 37.7938462, -122.394837, 65.0);
    var updated := Device(1, update.latitude, update.longitude, update.temperature);
    var tx := Tx([update]);
    assert GetAllPubKeys(tx) == [pk];

    init := app.SetOption("init", initValue);
    assert store.data == map[pk := env.encodeDevice(created)];

    var loaded := map[pk := created];
    assert LoadedDevices(store.data, GetAllPubKeys(tx), env.decodeDevice) == loaded;
    SingleInputExecution(update, loaded);
    assert [update][..0] == [];
    assert RunInputs([update], loaded) == Running(loaded[pk := updated]);
    assert Execute([update], loaded).value == [LoadedDevice(pk, updated)];
    first := app.AppendTx(txBytes);
    assert Writes([LoadedDevice(pk, updated)], env.encodeDevice) == [(pk, env.encodeDevice(updated))];
    assert store.data == map[pk := env.encodeDevice(updated)];

    assert LoadedDevices(store.data, GetAllPubKeys(tx), env.decodeDevice) == loaded[pk := updated];
    ReplayIsRejected(update, loaded);
    replay := app.AppendTx(txBytes);
    stored := store.Get(pk);
  }
}
