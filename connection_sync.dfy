/**
 * The transaction handling of `SyndesisConnectionSynchronizer`: how it names and opens a
 * unit of work, how `commit` classifies the outcome of a commit, and how `refreshSchema`
 * rolls back when anything fails.
 *
 * The repository processes a commit on another thread. The model leaves that processing
 * out: whether the wait for it ended in time is an input, and so is what the processing
 * left in the two error slots by the time the wait ended.
 */
module ConnectionSync {
  import opened Results
  import opened JavaStrings

  /** How long `commit` waits for the callback. */
  const TIMEOUT: nat := 30

  datatype TimeUnit = Seconds

  const UNIT: TimeUnit := Seconds

  /** The simple name of the class, which starts every transaction name. */
  const CLASS_NAME: string := "SyndesisConnectionSynchronizer"

  const COLON: char := ':'

  /** The user every transaction is opened for. */
  const TRANSACTION_USER: string := "user"

  /** The states of a unit of work. */
  datatype TxState = NotStarted | Running | Committed | RolledBack | Failed

  /** What the synchronizer asks of a unit of work, in order. */
  datatype Request = CommitRequested | Awaited(timeout: nat, unit: TimeUnit) | RollbackRequested

  /**
   * The `KException`s `commit` and `refreshSchema` throw: the commit-timeout message with
   * its three arguments, or a wrapper around a cause.
   */
  datatype SyncError = CommitTimeout(txName: string, timeout: nat, unit: TimeUnit) | Wrapped(cause: string)

  /** A unit of work with its synchronous callback. */
  class UnitOfWork {
    const user: string
    const name: string
    const rollbackOnly: bool
    var state: TxState
    /** `getError()`: the error the repository met while committing, if any. */
    var error: Option<string>
    /** `callback.error()`: the error the callback was completed with, if any. */
    var callbackError: Option<string>
    /** The requests made of this unit of work so far. */
    var requests: seq<Request>

    constructor (user: string, name: string, rollbackOnly: bool)
      ensures this.user == user && this.name == name && this.rollbackOnly == rollbackOnly
      ensures state == NotStarted && error == None && callbackError == None && requests == []
    {
      this.user := user;
      this.name := name;
      this.rollbackOnly := rollbackOnly;
      state := NotStarted;
      error := None;
      callbackError := None;
      requests := [];
    }

    /** `commit()`: hands the unit of work to the repository. */
    method RequestCommit()
      modifies this
      ensures requests == old(requests) + [CommitRequested]
      ensures state == old(state) && error == old(error) && callbackError == old(callbackError)
    {
      requests := requests + [CommitRequested];
    }

    /**
     * `await(timeout, unit)` on the callback. While it waits, the repository's commit
     * processing runs: whether it completed in time is `completed`, and what it left in the
     * error slots is `errorAfter` and `callbackErrorAfter`.
     */
    method Await(timeout: nat, unit: TimeUnit, completed: bool, errorAfter: Option<string>, callbackErrorAfter: Option<string>)
      returns (done: bool)
      modifies this
      ensures done == completed
      ensures requests == old(requests) + [Awaited(timeout, unit)]
      ensures state == old(state) && error == errorAfter && callbackError == callbackErrorAfter
    {
      requests := requests + [Awaited(timeout, unit)];
      error := errorAfter;
      callbackError := callbackErrorAfter;
      done := completed;
    }

    /** `rollback()`: the unit of work ends rolled back. */
    method Rollback()
      modifies this
      ensures requests == old(requests) + [RollbackRequested]
      ensures state == RolledBack && error == old(error) && callbackError == old(callbackError)
    {
      requests := requests + [RollbackRequested];
      state := RolledBack;
    }
  }

  // ---------------------------------------------------------------- naming

  /** The name `createTransaction` gives: class name, name and clock reading, colon-separated. */
  function TransactionName(name: string, millis: nat): (r: string)
    ensures |r| > |CLASS_NAME| + 1 + |name| && r[..|CLASS_NAME| + 1] == CLASS_NAME + [COLON]
  {
    var r := CLASS_NAME + [COLON] + name + [COLON] + NatToString(millis);
    assert r[..|CLASS_NAME| + 1] == CLASS_NAME + [COLON];
    r
  }

  /**
   * For a name without a colon, splitting the transaction name at colons gives back the
   * class name, the name and the clock reading.
   */
  lemma TransactionNameParts(name: string, millis: nat)
    requires COLON !in name
    ensures var parts := JavaSplit(TransactionName(name, millis), COLON);
            |parts| == 3 && parts[0] == CLASS_NAME && parts[1] == name &&
            AllDigits(parts[2]) && DigitsValue(parts[2]) == millis
  {
    var digits := NatToString(millis);
    var parts := [CLASS_NAME, name, digits];
    assert COLON !in digits;
    assert Join(parts[2..], COLON) == digits;
    assert Join(parts[1..], COLON) == name + [COLON] + digits;
    assert Join(parts, COLON) == TransactionName(name, millis);
    JavaSplitJoin(parts, COLON);
    NatToStringRoundTrip(millis);
  }

  /**
   * `createTransaction(name, rollbackOnly)`: a new unit of work for the fixed user, named
   * from `name` and the clock reading `millis`, with a fresh callback and no errors.
   */
  method CreateTransaction(name: string, rollbackOnly: bool, millis: nat) returns (tx: UnitOfWork)
    ensures fresh(tx)
    ensures tx.user == TRANSACTION_USER && tx.name == TransactionName(name, millis)
    ensures tx.rollbackOnly == rollbackOnly
    ensures tx.state == NotStarted && tx.error == None && tx.callbackError == None && tx.requests == []
  {
    tx := new UnitOfWork(TRANSACTION_USER, CLASS_NAME + [COLON] + name + [COLON] + NatToString(millis), rollbackOnly);
  }

  // ---------------------------------------------------------------- commit

  /**
   * How `commit` ends, from whether the wait completed and what the two error slots hold
   * once it has.
   */
  function CommitOutcome(txName: string, completed: bool, txError: Option<string>, callbackError: Option<string>)
    : Result<(), SyncError>
  {
    if !completed then Err(CommitTimeout(txName, TIMEOUT, UNIT))
    else if txError.Some? then Err(Wrapped(txError.value))
    else if callbackError.Some? then Err(Wrapped(callbackError.value))
    else Ok(())
  }

  /** A commit succeeds exactly when the wait completed and both error slots are empty. */
  lemma CommitSucceedsIff(txName: string, completed: bool, txError: Option<string>, callbackError: Option<string>)
    ensures CommitOutcome(txName, completed, txError, callbackError).Ok? <==>
            completed && txError.None? && callbackError.None?
  {
  }

  /**
   * A wait that does not complete gives the timeout error naming the transaction, 30 and
   * seconds, whatever the error slots hold.
   */
  lemma CommitTimeoutIgnoresSlots(txName: string, txError: Option<string>, callbackError: Option<string>,
                                  txError': Option<string>, callbackError': Option<string>)
    ensures CommitOutcome(txName, false, txError, callbackError) == Err(CommitTimeout(txName, 30, Seconds))
    ensures CommitOutcome(txName, false, txError, callbackError) == CommitOutcome(txName, false, txError', callbackError')
  {
  }

  /** Once the wait completed, the transaction's error wins over the callback's. */
  lemma CommitTransactionErrorFirst(txName: string, e: string, callbackError: Option<string>)
    ensures CommitOutcome(txName, true, Some(e), callbackError) == Err(Wrapped(e))
  {
  }

  /** The callback's error surfaces only when the transaction has none. */
  lemma CommitCallbackErrorOnly(txName: string, txError: Option<string>, e: string)
    ensures CommitOutcome(txName, true, txError, Some(e)) ==
            if txError.None? then Err(Wrapped(e)) else Err(Wrapped(txError.value))
  {
  }

  /**
   * `commit(transaction)`: requests the commit, then waits 30 seconds, then reads the
   * transaction's error and then the callback's, as the processing left them; `completed`
   * is how the wait ended, and `errorAfter` and `callbackErrorAfter` what the processing
   * left in the two slots.
   */
  method Commit(transaction: UnitOfWork, completed: bool, errorAfter: Option<string>, callbackErrorAfter: Option<string>)
    returns (r: Result<(), SyncError>)
    modifies transaction
    ensures transaction.error == errorAfter && transaction.callbackError == callbackErrorAfter
    ensures r == CommitOutcome(transaction.name, completed, transaction.error, transaction.callbackError)
    ensures transaction.requests == old(transaction.requests) + [CommitRequested, Awaited(TIMEOUT, UNIT)]
    ensures transaction.state == old(transaction.state)
  {
    var timeout := TIMEOUT;
    var unit := UNIT;
    transaction.RequestCommit();
    var done := transaction.Await(timeout, unit, completed, errorAfter, callbackErrorAfter);
    if !done {
      return Err(CommitTimeout(transaction.name, timeout, unit));
    }
    var error := transaction.error;
    if error.Some? {
      return Err(Wrapped(error.value));
    }
    error := transaction.callbackError;
    if error.Some? {
      return Err(Wrapped(error.value));
    }
    return Ok(());
  }

  // ---------------------------------------------------------------- refreshSchema's catch

  /**
   * The catch block of `refreshSchema`: the unit of work, if one was opened, is rolled back
   * unless it already is, and the failure is rethrown wrapped.
   */
  method RefreshSchemaFailed(uow: UnitOfWork?, cause: string) returns (e: SyncError)
    modifies uow
    ensures e == Wrapped(cause)
    ensures uow != null ==> uow.state == RolledBack
    ensures uow != null ==>
              uow.requests == old(uow.requests) + if old(uow.state) == RolledBack then [] else [RollbackRequested]
  {
    if uow != null && uow.state != RolledBack {
      uow.Rollback();
    }
    return Wrapped(cause);
  }
}
