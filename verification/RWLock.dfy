/** The reader-writer lock: a call of `read` or `write` as the steps it takes, one atomic operation each. */
module RWLock {
  import opened Bits

  /** What a caller wants the lock for: to look at the data, or to replace it by `op` of what it is. */
  datatype Job<!T> = Read | Write(op: T -> T)

  /** Where a call stands. `ReadCas` and `WriteCas` keep the loaded word; it may be stale. A read guard is held in
      `Reading`, a write guard in `Writing`, `Loaded` and `Stored`. */
  datatype Pc<T> =
    | Start
    | ReadLoad
    | ReadCas(n: nat)
    | Reading
    | WriteLoad
    | WriteCas(n: nat)
    | Draining
    | Writing
    | Loaded(v: T)
    | Stored
    | Done

  datatype Shared<T> = Shared(word: nat, data: T, pc: Pc<T>)

  predicate Flagged(word: nat) {
    word >= WRITE_FLAG
  }

  /** The number of readers in the word. */
  function Count(word: nat): nat {
    if word >= WRITE_FLAG then word - WRITE_FLAG else word
  }

  function WithFlag(word: nat): nat {
    WRITE_FLAG + Count(word)
  }

  /** The next step of a call, in terms of flag and count. */
  function Advance<T>(word: nat, data: T, job: Job<T>, pc: Pc<T>, spurious: bool): Shared<T> {
    match pc
    case Start => Shared(word, data, if job.Read? then ReadLoad else WriteLoad)
    case ReadLoad => Shared(word, data, if Flagged(word) then ReadLoad else ReadCas(word))
    case ReadCas(n) => if !spurious && word == n then Shared(n + 1, data, Reading) else Shared(word, data, ReadLoad)
    case Reading => Shared(if word == 0 then WORD_LIMIT - 1 else word - 1, data, Done)
    case WriteLoad => Shared(word, data, if Flagged(word) then WriteLoad else WriteCas(word))
    case WriteCas(n) =>
      if !spurious && word == n then Shared(WithFlag(n), data, if Count(n) == 0 then Writing else Draining)
      else Shared(word, data, WriteLoad)
    case Draining => Shared(word, data, if Count(word) != 0 then Draining else Writing)
    case Writing => Shared(word, data, Loaded(data))
    case Loaded(v) => Shared(word, if job.Write? then job.op(v) else data, Stored)
    case Stored => Shared(Count(word), data, Done)
    case Done => Shared(word, data, Done)
  }

  class AtomicUsize {
    var value: nat

    ghost predicate Valid()
      reads this
    {
      value < WORD_LIMIT
    }

    constructor (value: nat)
      requires value < WORD_LIMIT
      ensures Valid() && this.value == value
    {
      this.value := value;
    }

    method Load() returns (n: nat)
      ensures n == value
    {
      n := value;
    }

    /** Stores `new'` if the value is `current`, unless it fails spuriously; yields the value it found. */
    method CompareExchangeWeak(current: nat, new': nat, spurious: bool) returns (ok: bool, found: nat)
      requires Valid() && new' < WORD_LIMIT
      modifies this
      ensures Valid() && found == old(value)
      ensures ok <==> !spurious && old(value) == current
      ensures value == if ok then new' else old(value)
    {
      found := value;
      ok := !spurious && value == current;
      if ok {
        value := new';
      }
    }

    method FetchSub(k: nat) returns (found: nat)
      requires Valid() && k < WORD_LIMIT
      modifies this
      ensures Valid() && found == old(value)
      ensures value == if k <= old(value) then old(value) - k else old(value) + WORD_LIMIT - k
    {
      found := value;
      value := (value + WORD_LIMIT - k) % WORD_LIMIT;
    }

    method FetchAnd(mask: nat) returns (found: nat)
      requires Valid() && BitAnd(value, mask) < WORD_LIMIT
      modifies this
      ensures Valid() && found == old(value) && value == BitAnd(old(value), mask)
    {
      found := value;
      value := BitAnd(value, mask);
    }
  }

  class RWLock<T> {
    const readCountWriteLockFlag: AtomicUsize
    var data: T

    ghost predicate Valid()
      reads readCountWriteLockFlag
    {
      readCountWriteLockFlag.Valid()
    }

    constructor (data: T)
      ensures Valid() && this.data == data && readCountWriteLockFlag.value == 0
    {
      readCountWriteLockFlag := new AtomicUsize(0);
      this.data := data;
    }

    /** The next step of `read`. */
    method ReadStep(pc: Pc<T>, spurious: bool) returns (pc': Pc<T>)
      requires Valid() && (pc.ReadLoad? || (pc.ReadCas? && pc.n < WRITE_FLAG))
      modifies readCountWriteLockFlag
      ensures Valid()
      ensures Shared(readCountWriteLockFlag.value, data, pc')
              == Advance(old(readCountWriteLockFlag.value), data, Read, pc, spurious)
    {
      match pc
      case ReadLoad =>
        var n := readCountWriteLockFlag.Load();
        FlagOperations(n);
        if BitAnd(n, WRITE_FLAG) == 0 {
          pc' := ReadCas(n);
        } else {
          pc' := ReadLoad;
        }
      case ReadCas(n) =>
        var ok, _ := readCountWriteLockFlag.CompareExchangeWeak(n, n + 1, spurious);
        pc' := if ok then Reading else ReadLoad;
    }

    /** The next step of `write`. */
    method WriteStep(pc: Pc<T>, op: T -> T, spurious: bool) returns (pc': Pc<T>)
      requires Valid() && (pc.WriteLoad? || (pc.WriteCas? && pc.n < WRITE_FLAG) || pc.Draining?)
      modifies readCountWriteLockFlag
      ensures Valid()
      ensures Shared(readCountWriteLockFlag.value, data, pc')
              == Advance(old(readCountWriteLockFlag.value), data, Write(op), pc, spurious)
    {
      match pc
      case WriteLoad =>
        var n := readCountWriteLockFlag.Load();
        FlagOperations(n);
        if BitAnd(n, WRITE_FLAG) != 0 {
          pc' := WriteLoad;
        } else {
          pc' := WriteCas(n);
        }
      case WriteCas(n) =>
        FlagOperations(n);
        var ok, x := readCountWriteLockFlag.CompareExchangeWeak(n, BitOr(n, WRITE_FLAG), spurious);
        if ok {
          if BitAnd(x, WORD_LIMIT - 1 - WRITE_FLAG) == 0 {
            pc' := Writing;
          } else {
            pc' := Draining;
          }
        } else {
          pc' := WriteLoad;
        }
      case Draining =>
        var n := readCountWriteLockFlag.Load();
        FlagOperations(n);
        if BitAnd(n, WORD_LIMIT - 1 - WRITE_FLAG) != 0 {
          pc' := Draining;
        } else {
          pc' := Writing;
        }
    }

    /** A write section: the data is read, and later what was made of it is stored, as in `*data += 1`. */
    method SectionStep(pc: Pc<T>, op: T -> T) returns (pc': Pc<T>)
      requires pc.Writing? || pc.Loaded?
      modifies this
      ensures Shared(readCountWriteLockFlag.value, data, pc')
              == Advance(readCountWriteLockFlag.value, old(data), Write(op), pc, false)
    {
      match pc
      case Writing => pc' := Loaded(data);
      case Loaded(v) =>
        data := op(v);
        pc' := Stored;
    }

    /** Dropping a read guard. */
    method DropRead() returns (pc': Pc<T>)
      requires Valid()
      modifies readCountWriteLockFlag
      ensures Valid()
      ensures Shared(readCountWriteLockFlag.value, data, pc')
              == Advance(old(readCountWriteLockFlag.value), data, Read, Reading, false)
    {
      var _ := readCountWriteLockFlag.FetchSub(1);
      pc' := Done;
    }

    /** Dropping a write guard. */
    method DropWrite(op: T -> T) returns (pc': Pc<T>)
      requires Valid()
      modifies readCountWriteLockFlag
      ensures Valid()
      ensures Shared(readCountWriteLockFlag.value, data, pc')
              == Advance(old(readCountWriteLockFlag.value), data, Write(op), Stored, false)
    {
      FlagOperations(readCountWriteLockFlag.value);
      var _ := readCountWriteLockFlag.FetchAnd(WORD_LIMIT - 1 - WRITE_FLAG);
      pc' := Done;
    }
  }
}
