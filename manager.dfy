/**
 The sensor table and the registry of running ingestion workers.

 The table maps the decimal ids "109" .. "126" to an address on the
 192.168.50.0 network and a UDP port counted up from 2309. The registry maps
 ids to the handles of the worker started for them (its process, its output
 queue and its running flag); workers start on demand and stop on request or
 all together at shutdown. Processes and flags are opaque handles here: only
 the state the registry relies on (alive, sent SIGTERM, set) is kept.
 */
module LidarManager {
  import opened UdpWorker

  const FirstId: nat := 109
  const LidarCount: nat := 18
  const FirstPort: nat := 2309
  const SubnetPrefix: string := "192.168.50."

  // ---------------------------------------------------------------------------
  // Decimal ids (`str(i)`)

  function DigitChar(d: nat): (c: char)
    requires d < 10
    ensures '0' <= c <= '9'
    ensures c as int - '0' as int == d
  {
    ('0' as int + d) as char
  }

  /** Python's `str(n)` for a natural number: no leading zeros. */
  function DecimalString(n: nat): (s: string)
    ensures 1 <= |s|
    ensures n >= 10 ==> |s| >= 2
    ensures forall i :: 0 <= i < |s| ==> '0' <= s[i] <= '9'
    ensures s[|s| - 1] == DigitChar(n % 10)
    ensures s[0] == '0' <==> n == 0
    decreases n
  {
    if n < 10 then [DigitChar(n)] else DecimalString(n / 10) + [DigitChar(n % 10)]
  }

  /** The value of a decimal digit; other characters count as zero. */
  function DigitValue(c: char): (d: nat)
    ensures d < 10
  {
    if '0' <= c <= '9' then c as int - '0' as int else 0
  }

  /** Python's `int(s)` on a string of decimal digits: the inverse of `DecimalString`. */
  function ParseDecimal(s: string): nat
    decreases |s|
  {
    if s == [] then 0 else 10 * ParseDecimal(s[..|s| - 1]) + DigitValue(s[|s| - 1])
  }

  lemma {:induction false} ParseDecimalString(n: nat)
    ensures ParseDecimal(DecimalString(n)) == n
    decreases n
  {
    var s := DecimalString(n);
    if n < 10 {
      assert s[..|s| - 1] == [];
    } else {
      assert s[..|s| - 1] == DecimalString(n / 10);
      ParseDecimalString(n / 10);
    }
  }

  /** Distinct numbers have distinct decimal strings, so the table's keys are distinct. */
  lemma DecimalStringInjective(a: nat, b: nat)
    ensures DecimalString(a) == DecimalString(b) ==> a == b
  {
    ParseDecimalString(a);
    ParseDecimalString(b);
  }

  // ---------------------------------------------------------------------------
  // The sensor table (`LIDAR_CONFIG`)

  datatype LidarConfig = LidarConfig(id: string, ip: string, port: int)

  /** The entry for sensor number `i`. */
  function Entry(i: nat): LidarConfig {
    LidarConfig(DecimalString(i), SubnetPrefix + DecimalString(i), FirstPort + (i - FirstId))
  }

  /** The ids of sensors 109 .. i - 1. */
  ghost function TableKeys(i: nat): set<string>
    decreases i
  {
    if i <= FirstId then {} else TableKeys(i - 1) + {DecimalString(i - 1)}
  }

  /** Every id in `TableKeys(i)` is the decimal string of a number in 109 .. i - 1. */
  lemma {:induction false} TableKeysAreIds(i: nat, k: string)
    requires k in TableKeys(i)
    ensures FirstId <= ParseDecimal(k) < i && k == DecimalString(ParseDecimal(k))
    decreases i
  {
    if k == DecimalString(i - 1) {
      ParseDecimalString(i - 1);
    } else {
      TableKeysAreIds(i - 1, k);
    }
  }

  /** The table holds the entries for 109 .. i - 1 and nothing else. */
  ghost predicate TablePrefix(config: map<string, LidarConfig>, i: nat) {
    && i >= FirstId
    && config.Keys == TableKeys(i)
    && |config| == i - FirstId
    && (forall j :: FirstId <= j < i ==> DecimalString(j) in config && config[DecimalString(j)] == Entry(j))
  }

  /** The table holds exactly the entries for 109 .. 126, keyed by their decimal id. */
  ghost predicate IsLidarTable(config: map<string, LidarConfig>) {
    TablePrefix(config, FirstId + LidarCount)
  }

  lemma TableGrowsEntries(config: map<string, LidarConfig>, i: nat)
    requires forall j :: FirstId <= j < i ==> DecimalString(j) in config && config[DecimalString(j)] == Entry(j)
    ensures forall j :: FirstId <= j < i + 1 ==>
      DecimalString(j) in config[DecimalString(i) := Entry(i)] && config[DecimalString(i) := Entry(i)][DecimalString(j)] == Entry(j)
  {
    var next := config[DecimalString(i) := Entry(i)];
    forall j | FirstId <= j < i + 1
      ensures DecimalString(j) in next && next[DecimalString(j)] == Entry(j)
    {
      if j < i {
        DecimalStringInjective(j, i);
      }
    }
  }

  /** The empty table holds the entries for no sensor. */
  lemma TableEmpty()
    ensures TablePrefix(map[], FirstId)
  {}

  /** Adding entry `i` to the table for 109 .. i - 1 gives the table for 109 .. i. */
  lemma TableGrows(config: map<string, LidarConfig>, i: nat)
    requires TablePrefix(config, i)
    ensures DecimalString(i) !in config
    ensures TablePrefix(config[DecimalString(i) := Entry(i)], i + 1)
  {
    if DecimalString(i) in config {
      TableKeysAreIds(i, DecimalString(i));
      ParseDecimalString(i);
    }
    assert |config[DecimalString(i) := Entry(i)]| == |config| + 1;
    TableGrowsEntries(config, i);
  }

  /** Lines 12-19: the loop `for i in range(109, 127)` filling the table. */
  method BuildConfig() returns (config: map<string, LidarConfig>)
    ensures IsLidarTable(config)
  {
    config := map[];
    var i := FirstId;
    TableEmpty();
    while i < FirstId + LidarCount
      invariant i <= FirstId + LidarCount
      invariant TablePrefix(config, i)
    {
      var lidId := DecimalString(i);
      TableGrows(config, i);
      config := config[lidId := Entry(i)];
      i := i + 1;
    }
  }

  /** Every entry is keyed by its own id, has the address `192.168.50.<id>` and a port in 2309 .. 2326. */
  lemma TableEntries(config: map<string, LidarConfig>, k: string)
    requires IsLidarTable(config)
    requires k in config
    ensures config[k].id == k
    ensures config[k].ip == SubnetPrefix + k
    ensures FirstPort <= config[k].port < FirstPort + LidarCount
  {
    TableKeysAreIds(FirstId + LidarCount, k);
    var i := ParseDecimal(k);
    assert config[DecimalString(i)] == Entry(i);
  }

  /** Different entries have different ports. */
  lemma TablePortsDistinct(config: map<string, LidarConfig>, k1: string, k2: string)
    requires IsLidarTable(config)
    requires k1 in config && k2 in config && k1 != k2
    ensures config[k1].port != config[k2].port
  {
    TableKeysAreIds(FirstId + LidarCount, k1);
    TableKeysAreIds(FirstId + LidarCount, k2);
    var i1, i2 := ParseDecimal(k1), ParseDecimal(k2);
    assert i1 != i2;
    assert config[k1].port == Entry(i1).port;
    assert config[k2].port == Entry(i2).port;
  }

  // ---------------------------------------------------------------------------
  // Opaque handles

  /** `multiprocessing.Event`: a shared flag. */
  class Event {
    var isSet: bool

    constructor ()
      ensures !isSet
    {
      isSet := false;
    }

    method Set()
      modifies this
      ensures isSet
    {
      isSet := true;
    }

    method Clear()
      modifies this
      ensures !isSet
    {
      isSet := false;
    }
  }

  /** `multiprocessing.Process(target=udp_parsing_worker, args=(queue, port, lidar_id, event))`. */
  class Process {
    const queue: FrameQueue
    const port: int
    const lidarId: string
    const event: Event
    var alive: bool
    /** `terminate()` has been called: SIGTERM was sent. */
    var terminated: bool

    constructor (queue: FrameQueue, port: int, lidarId: string, event: Event)
      ensures this.queue == queue && this.port == port && this.lidarId == lidarId && this.event == event
      ensures !alive && !terminated
    {
      this.queue := queue;
      this.port := port;
      this.lidarId := lidarId;
      this.event := event;
      alive := false;
      terminated := false;
    }

    method Start()
      modifies this
      ensures alive && terminated == old(terminated)
    {
      alive := true;
    }

    /** `join(timeout=1)`: whether the process exits within the timeout is an input. */
    method Join(exitsInTime: bool)
      modifies this
      ensures alive == (old(alive) && !exitsInTime)
      ensures terminated == old(terminated)
    {
      alive := alive && !exitsInTime;
    }

    method IsAlive() returns (b: bool)
      ensures b == alive
    {
      b := alive;
    }

    /**
     `terminate()` sends SIGTERM and returns without waiting, so the process
     may still be alive afterwards.
     */
    method Terminate()
      modifies this
      ensures terminated && alive == old(alive)
    {
      terminated := true;
    }
  }

  /** `{"process": p, "queue": queue, "event": event}`. */
  datatype WorkerHandles = WorkerHandles(process: Process, queue: FrameQueue, event: Event)

  /** The worker has been told to stop, and its process has exited or has been sent SIGTERM. */
  ghost predicate Stopped(h: WorkerHandles)
    reads h.process, h.event
  {
    !h.event.isSet && (!h.process.alive || h.process.terminated)
  }

  // ---------------------------------------------------------------------------
  // The registry

  /** `ProcessManager`: `workers` maps sensor ids to the handles of their running worker. */
  class ProcessManager {
    const config: map<string, LidarConfig>
    var workers: map<string, WorkerHandles>

    /** Registered ids are configured ids. */
    ghost predicate Valid()
      reads this
    {
      workers.Keys <= config.Keys
    }

    /** The process and flag objects of the registered workers. */
    ghost function Handles(): set<object>
      reads this
    {
      (set k | k in workers :: workers[k].process as object) + (set k | k in workers :: workers[k].event as object)
    }

    /** The process and flag objects of one registered worker. */
    ghost function EntryHandles(lidarId: string): set<object>
      reads this
    {
      if lidarId in workers then {workers[lidarId].process, workers[lidarId].event} else {}
    }

    constructor (config: map<string, LidarConfig>)
      ensures this.config == config && workers == map[]
      ensures Valid()
    {
      this.config := config;
      workers := map[];
    }

    /**
     Lines 28-48. A registered id gets its existing queue back and nothing
     changes; an unconfigured id gets None (null) and nothing changes; a
     configured, unregistered id gets a fresh capacity-5 queue, a set flag and
     a started process on its configured port, registered under that id only.
     */
    method StartLidar(lidarId: string) returns (q: FrameQueue?)
      requires Valid()
      modifies this
      ensures Valid()
      ensures lidarId in old(workers) ==> workers == old(workers) && q == old(workers)[lidarId].queue
      ensures lidarId !in old(workers) && lidarId !in config ==> workers == old(workers) && q == null
      ensures lidarId !in old(workers) && lidarId in config ==>
        && q != null && fresh(q) && q.items == [] && q.maxsize == QueueCapacity
        && workers.Keys == old(workers).Keys + {lidarId}
        && (forall k :: k in old(workers) ==> workers[k] == old(workers)[k])
        && workers[lidarId].queue == q
        && fresh(workers[lidarId].event) && workers[lidarId].event.isSet
        && fresh(workers[lidarId].process) && workers[lidarId].process.alive
        && !workers[lidarId].process.terminated
        && workers[lidarId].process.port == config[lidarId].port
        && workers[lidarId].process.lidarId == lidarId
        && workers[lidarId].process.queue == q
        && workers[lidarId].process.event == workers[lidarId].event
    {
      if lidarId in workers {
        return workers[lidarId].queue;
      }
      if lidarId !in config {
        return null;
      }
      var cfg := config[lidarId];
      var queue := new FrameQueue();
      var event := new Event();
      event.Set();
      var p := new Process(queue, cfg.port, lidarId, event);
      p.Start();
      workers := workers[lidarId := WorkerHandles(p, queue, event)];
      q := queue;
    }

    /**
     Lines 50-57. An unregistered id changes nothing. A registered id's flag
     is cleared, its process is joined and, if still alive, sent SIGTERM
     (which does not wait for it to exit); the entry is then removed; only
     that entry's handles are touched.
     */
    method StopLidar(lidarId: string, exitsInTime: bool)
      requires Valid()
      modifies this, EntryHandles(lidarId)
      ensures Valid()
      ensures lidarId !in old(workers) ==> workers == old(workers)
      ensures lidarId in old(workers) ==>
        && workers.Keys == old(workers).Keys - {lidarId}
        && (forall k :: k in workers ==> workers[k] == old(workers)[k])
        && Stopped(old(workers)[lidarId])
        && old(workers)[lidarId].process.alive == (old(workers[lidarId].process.alive) && !exitsInTime)
        && (old(workers)[lidarId].process.terminated
            <==> old(workers[lidarId].process.terminated) || old(workers)[lidarId].process.alive)
      ensures forall h: WorkerHandles :: old(allocated(h)) && old(Stopped(h)) ==> Stopped(h)
    {
      if lidarId in workers {
        var w := workers[lidarId];
        w.event.Clear();
        w.process.Join(exitsInTime);
        var alive := w.process.IsAlive();
        if alive {
          w.process.Terminate();
        }
        workers := workers - {lidarId};
      }
    }

    /**
     Lines 59-61: stop every worker registered at the call. The loop stops any
     registered id until none is left; since stopping one id removes only that
     entry, it visits exactly the ids of `list(self.workers.keys())`, in an
     unspecified order. Afterwards the registry is empty and every one of those
     workers has its flag cleared and its process exited or sent SIGTERM. `exitsInTime`
     holds the ids whose process exits within the join timeout.
     */
    method StopAll(exitsInTime: set<string>)
      requires Valid()
      modifies this, Handles()
      ensures Valid()
      ensures workers == map[]
      ensures forall k :: k in old(workers) ==> Stopped(old(workers)[k])
    {
      ghost var snapshot := workers;
      while workers.Keys != {}
        invariant Valid()
        invariant forall k :: k in workers ==> k in snapshot && workers[k] == snapshot[k]
        invariant forall k :: k in snapshot && k !in workers ==> Stopped(snapshot[k])
        decreases |workers.Keys|
      {
        var id :| id in workers.Keys;
        assert workers[id].process in old(Handles()) && workers[id].event in old(Handles());
        ghost var ids := workers.Keys;
        StopLidar(id, id in exitsInTime);
        assert workers.Keys == ids - {id};
        assert |workers.Keys| == |ids| - 1;
        forall k | k in workers
          ensures k in snapshot && workers[k] == snapshot[k]
        {
        }
      }
    }
  }
}
