/**
 * The user/identity ledger. Each user is keyed by its Ed25519 public key
 * and carries a name and an e-mail address. Unlike the device ledger it
 * has no sequence number: an input only needs its user to exist.
 */
module IdentityApp {
  import opened Common

  /** A user record as stored in the ledger. */
  datatype User = User(name: string, email: string)

  /** One signed update of one user. */
  datatype Input = Input(pubKey: Bytes, signature: Bytes, name: string, email: string)

  datatype Tx = Tx(inputs: seq<Input>)

  /** A user as loaded from the store, with the key it was read under. */
  datatype LoadedUser = LoadedUser(pubKey: Bytes, user: User)

  /** The parsed value of the "register" option. */
  datatype Status = Status(name: string, email: string)
  datatype RegisterOptions = RegisterOptions(seed: string, status: Status)

  /**
   * The collaborators the application calls but does not define: the
   * crypto adapter, the protobuf codecs (a failed decode carries the
   * thrown error's text), the JSON parse of an option value and the
   * e-mail regular expression.
   */
  datatype Env = Env(
    crypto: Crypto,
    encodeTx: Tx -> Bytes,
    decodeTx: Bytes -> Result<Tx, string>,
    encodeUser: User -> Bytes,
    decodeUser: Bytes -> User,
    parseRegisterOptions: string -> Option<RegisterOptions>,
    isValidEmail: string -> bool)

  /** What `setOption` does: registers a user, only logs, or throws. */
  datatype SetOptionResult = Registered(pubKey: Bytes, user: User) | Ignored(log: string) | Threw

  const BadEmail := Response(EncodingError, "Input email is invalid")
  const UnknownUser := Response(UnknownAccount, "Input user does not exist")

  // ---------------------------------------------------------------------
  // Validation (checkTx only)
  // ---------------------------------------------------------------------

  /** Every check of validateInput that precedes the signature holds. */
  predicate WellFormed(input: Input, isValidEmail: string -> bool)
  {
    && isValidEmail(input.email)
    && |input.pubKey| == PubKeyLength
    && |input.signature| == SignatureLength
  }

  /**
   * validateInput: e-mail, key length, signature length and finally the
   * signature, reporting only the first check that fails.
   */
  function ValidateInput(input: Input, signBytes: Bytes, env: Env): (r: Check)
    ensures r.Pass? <==>
              WellFormed(input, env.isValidEmail) && env.crypto.verify(input.pubKey, signBytes, input.signature)
    ensures r == Reject(BadEmail) <==> !env.isValidEmail(input.email)
    ensures r == Reject(BadPubKeyLength) <==> env.isValidEmail(input.email) && |input.pubKey| != PubKeyLength
    ensures r == Reject(BadSignatureLength) <==>
              env.isValidEmail(input.email) && |input.pubKey| == PubKeyLength && |input.signature| != SignatureLength
    ensures r == Reject(InvalidSignature) <==>
              WellFormed(input, env.isValidEmail) && !env.crypto.verify(input.pubKey, signBytes, input.signature)
  {
    if !env.isValidEmail(input.email) then Reject(BadEmail)
    else if |input.pubKey| != PubKeyLength then Reject(BadPubKeyLength)
    else if |input.signature| != SignatureLength then Reject(BadSignatureLength)
    else if !env.crypto.verify(input.pubKey, signBytes, input.signature) then Reject(InvalidSignature)
    else Pass
  }

  /** The transaction with every input's signature emptied. */
  function Unsigned(tx: Tx): Tx
  {
    Tx(seq(|tx.inputs|, i requires 0 <= i < |tx.inputs| => tx.inputs[i].(signature := [])))
  }

  /** The message every input's signature must authenticate. */
  function SignBytes(tx: Tx, env: Env): Bytes
  {
    env.encodeTx(Unsigned(tx))
  }

  /**
   * txSignBytes: empties the signature of every input of a copy of the
   * transaction, then encodes the copy.
   */
  method TxSignBytes(tx: Tx, encode: Tx -> Bytes) returns (signBytes: Bytes)
    ensures signBytes == encode(Unsigned(tx))
  {
    var copy := tx.inputs;
    var i := 0;
    while i < |copy|
      invariant |copy| == |tx.inputs|
      invariant 0 <= i <= |copy|
      invariant forall j :: 0 <= j < i ==> copy[j] == tx.inputs[j].(signature := [])
      invariant forall j :: i <= j < |copy| ==> copy[j] == tx.inputs[j]
    {
      copy := copy[i := copy[i].(signature := [])];
      i := i + 1;
    }
    assert Tx(copy) == Unsigned(tx);
    signBytes := encode(Tx(copy));
  }

  /** Two transactions that differ at most in their signatures have the same sign-bytes. */
  lemma {:induction false} SignBytesIgnoreSignatures(tx1: Tx, tx2: Tx, env: Env)
    requires |tx1.inputs| == |tx2.inputs|
    requires forall i :: 0 <= i < |tx1.inputs| ==>
               tx1.inputs[i].(signature := []) == tx2.inputs[i].(signature := [])
    ensures SignBytes(tx1, env) == SignBytes(tx2, env)
  {
    assert Unsigned(tx1).inputs == Unsigned(tx2).inputs;
  }

  /**
   * The unsigned copy keeps the inputs in order, with every field but the
   * signature unchanged, and emptying the signatures twice changes nothing.
   */
  lemma UnsignedKeepsInputs(tx: Tx)
    ensures |Unsigned(tx).inputs| == |tx.inputs|
    ensures forall i :: 0 <= i < |tx.inputs| ==>
              var u := Unsigned(tx).inputs[i];
              && u.signature == []
              && u.pubKey == tx.inputs[i].pubKey
              && u.name == tx.inputs[i].name
              && u.email == tx.inputs[i].email
    ensures Unsigned(Unsigned(tx)) == Unsigned(tx)
  {
  }

  /** The keys of the inputs before position `i`: the `seenPubKeys` dictionary when input `i` is reached. */
  function KeysBefore(inputs: seq<Input>, i: nat): set<Bytes>
    requires i <= |inputs|
  {
    set j | 0 <= j < i :: inputs[j].pubKey
  }

  /** What validateTx's loop decides at input `i`, once it gets there. */
  function StepCheck(inputs: seq<Input>, i: nat, signBytes: Bytes, env: Env): Check
    requires i < |inputs|
  {
    match ValidateInput(inputs[i], signBytes, env)
    case Reject(response) => Reject(response)
    case Pass => if inputs[i].pubKey in KeysBefore(inputs, i) then Reject(DuplicatePubKey) else Pass
  }

  /**
   * `r` is validateTx's verdict on `tx`: an empty transaction is rejected
   * outright; otherwise the inputs are scanned in order and the verdict is
   * the first step that rejects, or `Pass` when none does.
   */
  ghost predicate IsVerdict(tx: Tx, env: Env, r: Check)
  {
    var signBytes := SignBytes(tx, env);
    if |tx.inputs| == 0 then r == Reject(EmptyTx)
    else if r.Pass? then forall i :: 0 <= i < |tx.inputs| ==> StepCheck(tx.inputs, i, signBytes, env).Pass?
    else exists i :: 0 <= i < |tx.inputs|
                     && (forall j :: 0 <= j < i ==> StepCheck(tx.inputs, j, signBytes, env).Pass?)
                     && StepCheck(tx.inputs, i, signBytes, env) == r
  }

  /** validateTx: the pre-consensus checks, reporting the first violation. */
  method ValidateTx(tx: Tx, env: Env) returns (r: Check)
    ensures IsVerdict(tx, env, r)
  {
    if |tx.inputs| == 0 {
      return Reject(EmptyTx);
    }
    var seenPubKeys: set<Bytes> := {};
    var signBytes := TxSignBytes(tx, env.encodeTx);
    assert signBytes == SignBytes(tx, env);
    var i := 0;
    while i < |tx.inputs|
      invariant 0 <= i <= |tx.inputs|
      invariant seenPubKeys == KeysBefore(tx.inputs, i)
      invariant forall j :: 0 <= j < i ==> StepCheck(tx.inputs, j, signBytes, env).Pass?
    {
      var input := tx.inputs[i];
      var c := ValidateInput(input, signBytes, env);
      if c.Reject? {
        assert StepCheck(tx.inputs, i, signBytes, env) == c;
        return c;
      }
      if input.pubKey in seenPubKeys {
        assert StepCheck(tx.inputs, i, signBytes, env) == Reject(DuplicatePubKey);
        return Reject(DuplicatePubKey);
      }
      seenPubKeys := seenPubKeys + {input.pubKey};
      assert KeysBefore(tx.inputs, i + 1) == KeysBefore(tx.inputs, i) + {input.pubKey};
      i := i + 1;
    }
    return Pass;
  }

  /** validateTx reaches exactly one verdict on a transaction, so checkTx is repeatable. */
  lemma VerdictUnique(tx: Tx, env: Env, r1: Check, r2: Check)
    requires IsVerdict(tx, env, r1) && IsVerdict(tx, env, r2)
    ensures r1 == r2
  {
  }

  /**
   * validateTx accepts exactly the non-empty transactions whose inputs are
   * all well formed, all correctly signed over the sign-bytes, and signed by
   * pairwise distinct keys.
   */
  lemma {:induction false} AcceptedIff(tx: Tx, env: Env)
    ensures IsVerdict(tx, env, Pass) <==>
              && |tx.inputs| > 0
              && (forall i :: 0 <= i < |tx.inputs| ==>
                    WellFormed(tx.inputs[i], env.isValidEmail)
                    && env.crypto.verify(tx.inputs[i].pubKey, SignBytes(tx, env), tx.inputs[i].signature))
              && (forall i, j :: 0 <= i < j < |tx.inputs| ==> tx.inputs[i].pubKey != tx.inputs[j].pubKey)
  {
    var signBytes := SignBytes(tx, env);
    if IsVerdict(tx, env, Pass) {
      forall i, j | 0 <= i < j < |tx.inputs| ensures tx.inputs[i].pubKey != tx.inputs[j].pubKey {
        assert tx.inputs[i].pubKey in KeysBefore(tx.inputs, j);
        assert StepCheck(tx.inputs, j, signBytes, env).Pass?;
      }
      forall i | 0 <= i < |tx.inputs|
        ensures WellFormed(tx.inputs[i], env.isValidEmail)
                && env.crypto.verify(tx.inputs[i].pubKey, signBytes, tx.inputs[i].signature)
      {
        assert StepCheck(tx.inputs, i, signBytes, env).Pass?;
      }
    }
  }

  /**
   * A repeated key is reported as a duplicate only once the repeated input
   * has passed its own checks: with a bad signature on it, the verdict is
   * Unauthorized, not EncodingError.
   */
  lemma DuplicateReportedAfterOwnChecks(tx: Tx, env: Env, i: nat)
    requires i < |tx.inputs|
    requires forall j :: 0 <= j < i ==> StepCheck(tx.inputs, j, SignBytes(tx, env), env).Pass?
    requires tx.inputs[i].pubKey in KeysBefore(tx.inputs, i)
    ensures ValidateInput(tx.inputs[i], SignBytes(tx, env), env).Pass? ==>
              IsVerdict(tx, env, Reject(DuplicatePubKey))
    ensures WellFormed(tx.inputs[i], env.isValidEmail)
            && !env.crypto.verify(tx.inputs[i].pubKey, SignBytes(tx, env), tx.inputs[i].signature) ==>
              IsVerdict(tx, env, Reject(InvalidSignature))
  {
    assert StepCheck(tx.inputs, i, SignBytes(tx, env), env) ==
           if ValidateInput(tx.inputs[i], SignBytes(tx, env), env).Pass? then Reject(DuplicatePubKey)
           else ValidateInput(tx.inputs[i], SignBytes(tx, env), env);
  }

  // ---------------------------------------------------------------------
  // Execution (appendTx only)
  // ---------------------------------------------------------------------

  /** getAllPubKeys: the inputs' keys, in input order. */
  function GetAllPubKeys(tx: Tx): (keys: seq<Bytes>)
    ensures |keys| == |tx.inputs|
    ensures forall i :: 0 <= i < |tx.inputs| ==> keys[i] == tx.inputs[i].pubKey
  {
    seq(|tx.inputs|, i requires 0 <= i < |tx.inputs| => tx.inputs[i].pubKey)
  }

  /** The user map while executeTx runs: still going, or stopped with a response. */
  datatype Progress = Running(users: map<Bytes, User>) | Halted(response: Response)

  /** One pass of executeTx's loop body over the user map. */
  function StepInput(users: map<Bytes, User>, input: Input): Progress
  {
    if input.pubKey !in users then Halted(UnknownUser)
    else Running(users[input.pubKey := User(input.name, input.email)])
  }

  /** executeTx's loop run over `inputs`, in order, from the loaded map. */
  function RunInputs(inputs: seq<Input>, users: map<Bytes, User>): (p: Progress)
    ensures p.Running? ==> p.users.Keys == users.Keys
    ensures p.Running? ==> forall i :: 0 <= i < |inputs| ==> inputs[i].pubKey in users
    decreases |inputs|
  {
    if inputs == [] then Running(users)
    else
      match RunInputs(inputs[..|inputs| - 1], users)
      case Halted(response) => Halted(response)
      case Running(current) => StepInput(current, inputs[|inputs| - 1])
  }

  /**
   * executeTx's result: the pushed users in input order, or the first
   * failure. The same user object is pushed once per input naming it and
   * is persisted only after the loop, so every entry shows its user's
   * state at the end of the loop.
   */
  function Execute(inputs: seq<Input>, userMap: map<Bytes, User>): Result<seq<LoadedUser>, Response>
  {
    match RunInputs(inputs, userMap)
    case Halted(response) => Err(response)
    case Running(final) =>
      Ok(seq(|inputs|, i requires 0 <= i < |inputs| => LoadedUser(inputs[i].pubKey, final[inputs[i].pubKey])))
  }

  /** Once the loop stops, the remaining inputs do not matter. */
  lemma {:induction false} HaltedStaysHalted(inputs: seq<Input>, n: nat, userMap: map<Bytes, User>)
    requires n <= |inputs|
    requires RunInputs(inputs[..n], userMap).Halted?
    ensures RunInputs(inputs, userMap) == RunInputs(inputs[..n], userMap)
    decreases |inputs| - n
  {
    if n < |inputs| {
      assert inputs[..|inputs| - 1][..n] == inputs[..n];
      HaltedStaysHalted(inputs[..|inputs| - 1], n, userMap);
    } else {
      assert inputs[..n] == inputs;
    }
  }

  /** One more input: a failing step fails the whole run, a passing one extends it. */
  lemma RunInputsStep(inputs: seq<Input>, i: nat, userMap: map<Bytes, User>, users: map<Bytes, User>)
    requires i < |inputs|
    requires RunInputs(inputs[..i], userMap) == Running(users)
    ensures StepInput(users, inputs[i]).Halted? ==>
              Execute(inputs, userMap) == Err(StepInput(users, inputs[i]).response)
    ensures StepInput(users, inputs[i]).Running? ==>
              RunInputs(inputs[..i + 1], userMap) == StepInput(users, inputs[i])
  {
    assert inputs[..i + 1][..i] == inputs[..i];
    if StepInput(users, inputs[i]).Halted? {
      HaltedStaysHalted(inputs, i + 1, userMap);
    }
  }

  /** A complete run yields each input's key with its entry in the final map. */
  lemma ExecuteOfRun(inputs: seq<Input>, userMap: map<Bytes, User>, final: map<Bytes, User>)
    requires RunInputs(inputs, userMap) == Running(final)
    ensures Execute(inputs, userMap).Ok?
    ensures |Execute(inputs, userMap).value| == |inputs|
    ensures forall j :: 0 <= j < |inputs| ==>
              inputs[j].pubKey in final && Execute(inputs, userMap).value[j] == LoadedUser(inputs[j].pubKey, final[inputs[j].pubKey])
  {
  }

  /** executeTx: applies the inputs in order to the loaded users. */
  method ExecuteTx(tx: Tx, userMap: map<Bytes, User>) returns (r: Result<seq<LoadedUser>, Response>)
    ensures r == Execute(tx.inputs, userMap)
  {
    var users := userMap;          // the loaded user objects, updated in place
    var pushed: seq<Bytes> := [];  // the key of each object pushed, in order
    var i := 0;
    while i < |tx.inputs|
      invariant 0 <= i <= |tx.inputs|
      invariant RunInputs(tx.inputs[..i], userMap) == Running(users)
      invariant |pushed| == i && forall j :: 0 <= j < i ==> pushed[j] == tx.inputs[j].pubKey
    {
      var input := tx.inputs[i];
      RunInputsStep(tx.inputs, i, userMap, users);
      if input.pubKey !in users {
        return Err(UnknownUser);
      }
      users := users[input.pubKey := User(input.name, input.email)];
      pushed := pushed + [input.pubKey];
      i := i + 1;
    }
    assert tx.inputs[..i] == tx.inputs;
    ExecuteOfRun(tx.inputs, userMap, users);
    assert forall j :: 0 <= j < |pushed| ==> pushed[j] in users;
    var out := seq(|pushed|, j requires 0 <= j < |pushed| => LoadedUser(pushed[j], users[pushed[j]]));
    assert out == Execute(tx.inputs, userMap).value;
    r := Ok(out);
  }

  // Closed form of executeTx ------------------------------------------------

  /** The last of `inputs` that names `k`, if any. */
  function LastInput(inputs: seq<Input>, k: Bytes): Option<Input>
    decreases |inputs|
  {
    if inputs == [] then None
    else if inputs[|inputs| - 1].pubKey == k then Some(inputs[|inputs| - 1])
    else LastInput(inputs[..|inputs| - 1], k)
  }

  /** User `user`, stored under `k`, once all of `inputs` have been applied: the last input naming it wins. */
  function Final(user: User, inputs: seq<Input>, k: Bytes): User
  {
    match LastInput(inputs, k)
    case None => user
    case Some(last) => User(last.name, last.email)
  }

  /** When executeTx's loop runs to the end, it leaves every loaded user in its `Final` state. */
  lemma {:induction false} RunningFinal(inputs: seq<Input>, userMap: map<Bytes, User>)
    requires RunInputs(inputs, userMap).Running?
    ensures forall k :: k in userMap ==> RunInputs(inputs, userMap).users[k] == Final(userMap[k], inputs, k)
    decreases |inputs|
  {
    if inputs != [] {
      var n := |inputs| - 1;
      var prefix := inputs[..n];
      var x := inputs[n];
      RunningFinal(prefix, userMap);
      forall k | k in userMap
        ensures RunInputs(inputs, userMap).users[k] == Final(userMap[k], inputs, k)
      {
        if k != x.pubKey {
          assert LastInput(inputs, k) == LastInput(prefix, k);
        }
      }
    }
  }

  /** executeTx's loop runs to the end exactly when every input's user was loaded. */
  lemma {:induction false} RunningIffLoaded(inputs: seq<Input>, userMap: map<Bytes, User>)
    ensures RunInputs(inputs, userMap).Running? <==>
              forall i :: 0 <= i < |inputs| ==> inputs[i].pubKey in userMap
    decreases |inputs|
  {
    if inputs != [] {
      var n := |inputs| - 1;
      var prefix := inputs[..n];
      RunningIffLoaded(prefix, userMap);
      if RunInputs(prefix, userMap).Halted? {
        var i :| 0 <= i < n && prefix[i].pubKey !in userMap;
        assert inputs[i].pubKey !in userMap;
      }
    }
  }

  /** When executeTx's loop stops, it stops with UnknownAccount at the first input whose user was not loaded. */
  lemma {:induction false} HaltedAtFirst(inputs: seq<Input>, userMap: map<Bytes, User>)
    requires RunInputs(inputs, userMap).Halted?
    ensures RunInputs(inputs, userMap).response == UnknownUser
    ensures exists i :: 0 <= i < |inputs|
                        && (forall j :: 0 <= j < i ==> inputs[j].pubKey in userMap)
                        && inputs[i].pubKey !in userMap
    decreases |inputs|
  {
    var n := |inputs| - 1;
    var prefix := inputs[..n];
    if RunInputs(prefix, userMap).Halted? {
      HaltedAtFirst(prefix, userMap);
      var i :| 0 <= i < n
               && (forall j :: 0 <= j < i ==> prefix[j].pubKey in userMap)
               && prefix[i].pubKey !in userMap;
      assert forall j :: 0 <= j <= i ==> inputs[j] == prefix[j];
    } else {
      var current := RunInputs(prefix, userMap).users;
      assert RunInputs(inputs, userMap) == StepInput(current, inputs[n]);
      RunningIffLoaded(prefix, userMap);
      assert forall j :: 0 <= j < n ==> inputs[j] == prefix[j];
    }
  }

  /**
   * executeTx succeeds exactly when every input's user was loaded; then it
   * returns one entry per input, in input order, each keyed by its input's
   * key and holding that user's final state.
   */
  lemma ExecuteSucceeds(inputs: seq<Input>, userMap: map<Bytes, User>)
    ensures Execute(inputs, userMap).Ok? <==> forall i :: 0 <= i < |inputs| ==> inputs[i].pubKey in userMap
    ensures Execute(inputs, userMap).Ok? ==>
              var out := Execute(inputs, userMap).value;
              && |out| == |inputs|
              && forall i :: 0 <= i < |inputs| ==>
                   && out[i].pubKey == inputs[i].pubKey
                   && out[i].user == Final(userMap[inputs[i].pubKey], inputs, inputs[i].pubKey)
  {
    RunningIffLoaded(inputs, userMap);
    if RunInputs(inputs, userMap).Running? {
      RunningFinal(inputs, userMap);
    }
  }

  /** executeTx fails only with UnknownAccount, at the first input whose user was not loaded. */
  lemma ExecuteFailsAtFirstUnknownUser(inputs: seq<Input>, userMap: map<Bytes, User>)
    ensures Execute(inputs, userMap).Err? ==>
              && Execute(inputs, userMap).error == UnknownUser
              && exists i :: 0 <= i < |inputs|
                             && (forall j :: 0 <= j < i ==> inputs[j].pubKey in userMap)
                             && inputs[i].pubKey !in userMap
  {
    if RunInputs(inputs, userMap).Halted? {
      HaltedAtFirst(inputs, userMap);
    }
  }

  lemma {:induction false} DistinctLastInput(inputs: seq<Input>, i: nat)
    requires i < |inputs|
    requires forall a, b :: 0 <= a < b < |inputs| ==> inputs[a].pubKey != inputs[b].pubKey
    ensures LastInput(inputs, inputs[i].pubKey) == Some(inputs[i])
    decreases |inputs|
  {
    var n := |inputs| - 1;
    if i < n {
      DistinctLastInput(inputs[..n], i);
    }
  }

  /**
   * With pairwise distinct keys (what checkTx would have required), each
   * user in executeTx's output holds exactly its own input's name and
   * e-mail.
   */
  lemma DistinctKeysExecution(inputs: seq<Input>, userMap: map<Bytes, User>)
    requires forall a, b :: 0 <= a < b < |inputs| ==> inputs[a].pubKey != inputs[b].pubKey
    ensures Execute(inputs, userMap).Ok? ==>
              forall i :: 0 <= i < |inputs| ==>
                Execute(inputs, userMap).value[i] == LoadedUser(inputs[i].pubKey, User(inputs[i].name, inputs[i].email))
  {
    ExecuteSucceeds(inputs, userMap);
    forall i | 0 <= i < |inputs| ensures LastInput(inputs, inputs[i].pubKey) == Some(inputs[i]) {
      DistinctLastInput(inputs, i);
    }
  }

  /**
   * appendTx does not check for duplicate keys: two inputs naming the same
   * user both succeed, and the one user, holding the second input's values,
   * is pushed twice.
   */
  lemma DuplicateInputsShareUser(a: Input, b: Input, userMap: map<Bytes, User>)
    requires a.pubKey == b.pubKey && a.pubKey in userMap
    ensures var user := User(b.name, b.email);
            Execute([a, b], userMap) == Ok([LoadedUser(a.pubKey, user), LoadedUser(a.pubKey, user)])
  {
    var k := a.pubKey;
    assert [a, b][..1] == [a];
    assert [a][..0] == [];
    var afterA := userMap[k := User(a.name, a.email)];
    assert RunInputs([a], userMap) == Running(afterA);
    var user := User(b.name, b.email);
    assert RunInputs([a, b], userMap) == Running(afterA[k := user]);
    assert Execute([a, b], userMap).Ok?;
    var out := Execute([a, b], userMap).value;
    assert |out| == 2 && out[0] == LoadedUser(k, user) && out[1] == LoadedUser(k, user);
    assert out == [LoadedUser(k, user), LoadedUser(k, user)];
  }

  /**
   * appendTx applies no validation and keeps no sequence: a single input
   * executes exactly when its user exists, whatever its signature, key
   * length or e-mail, and the same input applies again after it has been
   * applied once.
   */
  lemma SingleInputExecution(x: Input, userMap: map<Bytes, User>)
    ensures Execute([x], userMap).Ok? <==> x.pubKey in userMap
    ensures Execute([x], userMap).Ok? ==>
              Execute([x], userMap[x.pubKey := User(x.name, x.email)]) == Execute([x], userMap)
  {
    assert [x][..0] == [];
    assert RunInputs([x], userMap) == StepInput(userMap, x);
    var again := userMap[x.pubKey := User(x.name, x.email)];
    assert RunInputs([x], again) == StepInput(again, x);
    if x.pubKey in userMap {
      assert again[x.pubKey := User(x.name, x.email)] == again;
      assert Execute([x], again).value == [LoadedUser(x.pubKey, User(x.name, x.email))];
      assert Execute([x], userMap).value == [LoadedUser(x.pubKey, User(x.name, x.email))];
    }
  }

  // ---------------------------------------------------------------------
  // Store adapter
  // ---------------------------------------------------------------------

  /** The user map _loadUsers builds from a store snapshot. */
  function LoadedUsers(data: map<Bytes, Bytes>, pubKeys: seq<Bytes>, decode: Bytes -> User): map<Bytes, User>
  {
    map k | k in pubKeys && k in data && |data[k]| > 0 :: decode(data[k])
  }

  /** The writes _storeUsers issues for a list of users, in list order. */
  function Writes(users: seq<LoadedUser>, encode: User -> Bytes): seq<(Bytes, Bytes)>
  {
    seq(|users|, i requires 0 <= i < |users| => (users[i].pubKey, encode(users[i].user)))
  }

  lemma WrittenInputKeys(inputs: seq<Input>, writes: seq<(Bytes, Bytes)>)
    requires |writes| == |inputs|
    requires forall i :: 0 <= i < |writes| ==> writes[i].0 == inputs[i].pubKey
    ensures WrittenKeys(writes) == KeysBefore(inputs, |inputs|)
  {
    forall k | k in KeysBefore(inputs, |inputs|) ensures k in WrittenKeys(writes) {
      var i :| 0 <= i < |inputs| && inputs[i].pubKey == k;
      assert writes[i].0 == k;
    }
  }

  /**
   * After a successful executeTx, storing its output sets every input's key
   * to its user's final state and leaves every other key as it was.
   */
  lemma StoredAfterExecute(data: map<Bytes, Bytes>, inputs: seq<Input>, userMap: map<Bytes, User>,
                           encode: User -> Bytes)
    requires Execute(inputs, userMap).Ok?
    ensures var stored := ApplyWrites(data, Writes(Execute(inputs, userMap).value, encode));
            && (forall i :: 0 <= i < |inputs| ==>
                  var k := inputs[i].pubKey;
                  k in stored && k in userMap && stored[k] == encode(Final(userMap[k], inputs, k)))
            && (forall k :: k !in KeysBefore(inputs, |inputs|) ==>
                  (k in stored <==> k in data) && (k in data ==> stored[k] == data[k]))
  {
    var out := Execute(inputs, userMap).value;
    var final := RunInputs(inputs, userMap).users;
    var writes := Writes(out, encode);
    var values := map k | k in final :: encode(final[k]);
    RunningFinal(inputs, userMap);
    forall i | 0 <= i < |writes|
      ensures writes[i].0 == inputs[i].pubKey && writes[i].0 in values && writes[i].1 == values[writes[i].0]
    {
    }
    ApplyAgreeingWrites(data, writes, values);
    WrittenInputKeys(inputs, writes);
  }

  // ---------------------------------------------------------------------
  // The application
  // ---------------------------------------------------------------------

  /** The TMSP application over one merkle store. */
  class AutoDapp {
    const merkleClient: MerkleStore
    const env: Env

    constructor (merkleClient: MerkleStore, env: Env)
      ensures this.merkleClient == merkleClient && this.env == env
    {
      this.merkleClient := merkleClient;
      this.env := env;
    }

    /**
     * setOption: the "register" key creates a user at the key derived from
     * the seed; any other key only logs.
     */
    method SetOption(key: string, value: string) returns (r: SetOptionResult)
      requires merkleClient.Valid()
      modifies merkleClient
      ensures merkleClient.Valid()
      ensures key != "register" ==> r == Ignored("Unrecognized option key " + key) && unchanged(merkleClient)
      ensures key == "register" && r.Threw? ==> unchanged(merkleClient)
      ensures key == "register" ==>
                match env.parseRegisterOptions(value)
                case None => r.Threw?
                case Some(opts) =>
                  match DeriveKeyPair(env.crypto, opts.seed)
                  case None => r.Threw?
                  case Some(pair) =>
                    var user := User(opts.status.name, opts.status.email);
                    && r == Registered(pair.pubKey, user)
                    && merkleClient.writes == old(merkleClient.writes) + [(pair.pubKey, env.encodeUser(user))]
                    && merkleClient.data == old(merkleClient.data)[pair.pubKey := env.encodeUser(user)]
    {
      if key == "register" {
        var opts := env.parseRegisterOptions(value);
        if opts.None? {
          return Threw;  // JSON.parse or the field accesses throw
        }
        var status := opts.value.status;
        var pair := DeriveKeyPair(env.crypto, opts.value.seed);
        if pair.None? {
          return Threw;  // `pair.pubKeyBytes` on a null pair throws
        }
        var user := User(status.name, status.email);
        merkleClient.Set(pair.value.pubKey, env.encodeUser(user));
        r := Registered(pair.value.pubKey, user);
      } else {
        r := Ignored("Unrecognized option key " + key);
      }
    }

    /**
     * checkTx: decode and validate only; the store is neither read nor
     * written, and no user is created.
     */
    method CheckTx(data: Bytes) returns (resp: Response)
      ensures env.decodeTx(data).Err? ==> resp == Response(EncodingError, env.decodeTx(data).error)
      ensures env.decodeTx(data).Ok? ==>
                && (resp == Accepted <==> IsVerdict(env.decodeTx(data).value, env, Pass))
                && (resp != Accepted ==> IsVerdict(env.decodeTx(data).value, env, Reject(resp)))
    {
      var decoded := env.decodeTx(data);
      if decoded.Err? {
        return Response(EncodingError, decoded.error);
      }
      var c := ValidateTx(decoded.value, env);
      if c.Reject? {
        AcceptedNeverRejects(decoded.value, env, c);
        return c.response;
      }
      resp := Accepted;
    }

    /**
     * appendTx: decode, batch-load the named users, execute, and write the
     * executed users only if execution succeeded. No validation runs.
     */
    method AppendTx(data: Bytes) returns (resp: Response)
      requires merkleClient.Valid()
      modifies merkleClient
      ensures merkleClient.Valid()
      ensures env.decodeTx(data).Err? ==>
                resp == Response(EncodingError, env.decodeTx(data).error) && unchanged(merkleClient)
      ensures env.decodeTx(data).Ok? ==>
                var tx := env.decodeTx(data).value;
                var outcome := Execute(tx.inputs, LoadedUsers(old(merkleClient.data), GetAllPubKeys(tx), env.decodeUser));
                && (outcome.Err? ==> resp == outcome.error && unchanged(merkleClient))
                && (outcome.Ok? ==>
                      && resp == Accepted
                      && merkleClient.writes == old(merkleClient.writes) + Writes(outcome.value, env.encodeUser)
                      && merkleClient.data == ApplyWrites(old(merkleClient.data), Writes(outcome.value, env.encodeUser)))
    {
      var decoded := env.decodeTx(data);
      if decoded.Err? {
        return Response(EncodingError, decoded.error);
      }
      var tx := decoded.value;
      var userMap := LoadUsers(GetAllPubKeys(tx));
      assert userMap == LoadedUsers(merkleClient.data, GetAllPubKeys(tx), env.decodeUser);
      var executed := ExecuteTx(tx, userMap);
      if executed.Err? {
        return executed.error;
      }
      StoreUsers(executed.value);
      resp := Accepted;
    }

    /**
     * _loadUsers: fetches every key, then folds the present ones into a map
     * from key to decoded user; keys whose stored bytes are empty are
     * dropped.
     */
    method LoadUsers(pubKeys: seq<Bytes>) returns (userMap: map<Bytes, User>)
      ensures forall k :: k in userMap <==> k in pubKeys && |merkleClient.Get(k)| > 0
      ensures forall k :: k in userMap ==> userMap[k] == env.decodeUser(merkleClient.Get(k))
    {
      // async.map: one lookup per key, in key order
      var users: seq<Option<LoadedUser>> := [];
      var i := 0;
      while i < |pubKeys|
        invariant 0 <= i <= |pubKeys| && |users| == i
        invariant forall j :: 0 <= j < i ==>
                    users[j] == if |merkleClient.Get(pubKeys[j])| == 0 then None
                                else Some(LoadedUser(pubKeys[j], env.decodeUser(merkleClient.Get(pubKeys[j]))))
      {
        var userBytes := merkleClient.Get(pubKeys[i]);
        if |userBytes| == 0 {
          users := users + [None];
        } else {
          users := users + [Some(LoadedUser(pubKeys[i], env.decodeUser(userBytes)))];
        }
        i := i + 1;
      }
      // reduce: later entries overwrite earlier ones under the same key
      userMap := map[];
      i := 0;
      while i < |users|
        invariant 0 <= i <= |users|
        invariant forall k :: k in userMap <==> k in pubKeys[..i] && |merkleClient.Get(k)| > 0
        invariant forall k :: k in userMap ==> userMap[k] == env.decodeUser(merkleClient.Get(k))
      {
        assert pubKeys[..i + 1] == pubKeys[..i] + [pubKeys[i]];
        if users[i].Some? {
          userMap := userMap[users[i].value.pubKey := users[i].value.user];
        }
        i := i + 1;
      }
      assert pubKeys[..i] == pubKeys;
    }

    /** _storeUsers: one write per user, keyed by its own key, in list order. */
    method StoreUsers(users: seq<LoadedUser>)
      requires merkleClient.Valid()
      modifies merkleClient
      ensures merkleClient.Valid()
      ensures merkleClient.writes == old(merkleClient.writes) + Writes(users, env.encodeUser)
      ensures merkleClient.data == ApplyWrites(old(merkleClient.data), Writes(users, env.encodeUser))
    {
      var i := 0;
      while i < |users|
        invariant 0 <= i <= |users|
        invariant merkleClient.Valid()
        invariant merkleClient.writes == old(merkleClient.writes) + Writes(users[..i], env.encodeUser)
        invariant merkleClient.data == ApplyWrites(old(merkleClient.data), Writes(users[..i], env.encodeUser))
      {
        var user := users[i];
        merkleClient.Set(user.pubKey, env.encodeUser(user.user));
        assert Writes(users[..i + 1], env.encodeUser) ==
               Writes(users[..i], env.encodeUser) + [(user.pubKey, env.encodeUser(user.user))];
        i := i + 1;
      }
      assert users[..i] == users;
    }
  }

  /** A rejecting verdict never carries the OK code. */
  lemma AcceptedNeverRejects(tx: Tx, env: Env, c: Check)
    requires IsVerdict(tx, env, c) && c.Reject?
    ensures c.response.code != OK
  {
  }

  /**
   * The test helper's opening steps: "register" creates the user of seed
   * "1"; a transaction from it is applied with OK, whatever its signature,
   * and stores the user with the input's name and e-mail; with no sequence
   * to check, applying the same transaction again is accepted too.
   */
  method RegisterApplyReplay(env: Env, registerValue: string, txBytes: Bytes, update: Input)
      returns (register: SetOptionResult, first: Response, replay: Response, stored: Bytes)
    requires env.parseRegisterOptions(registerValue) == Some(RegisterOptions("1", Status("alex", "alex@bbb.com")))
    requires update.pubKey == env.crypto.keyPairFromSeed(env.crypto.sha256("1")).pubKey
    requires env.decodeTx(txBytes) == Ok(Tx([update]))
    // the two user records involved survive an encode/decode round trip
    requires var created := User("alex", "alex@bbb.com");
             |env.encodeUser(created)| > 0 && env.decodeUser(env.encodeUser(created)) == created
    requires var updated := User(update.name, update.email);
             |env.encodeUser(updated)| > 0 && env.decodeUser(env.encodeUser(updated)) == updated
    ensures register == Registered(update.pubKey, User("alex", "alex@bbb.com"))
    ensures first == Accepted && replay == Accepted
    ensures stored == env.encodeUser(User(update.name, update.email))
  {
    var store := new MerkleStore(map[]);
    var app := new AutoDapp(store, env);
    var pk := update.pubKey;
    var created := User("alex", "alex@bbb.com");
    var updated := User(update.name, update.email);
    var tx := Tx([update]);
    assert GetAllPubKeys(tx) == [pk];

    register := app.SetOption("register", registerValue);
    assert store.data == map[pk := env.encodeUser(created)];

    var loaded := map[pk := created];
    assert LoadedUsers(store.data, GetAllPubKeys(tx), env.decodeUser) == loaded;
    assert [update][..0] == [];
    assert RunInputs([update], loaded) == Running(loaded[pk := updated]);
    assert Execute([update], loaded).value == [LoadedUser(pk, updated)];
    first := app.AppendTx(txBytes);
    assert Writes([LoadedUser(pk, updated)], env.encodeUser) == [(pk, env.encodeUser(updated))];
    assert store.data == map[pk := env.encodeUser(updated)];

    assert LoadedUsers(store.data, GetAllPubKeys(tx), env.decodeUser) == loaded[pk := updated];
    SingleInputExecution(update, loaded);
    replay := app.AppendTx(txBytes);
    stored := store.Get(pk);
  }
}
