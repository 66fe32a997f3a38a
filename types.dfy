/** Records shared by the discovery, enumeration, benchmark and scoring stages. */
module Types {

  datatype Option<+T> = None | Some(value: T) {
    function GetOr(default: T): T {
      match this
      case Some(v) => v
      case None => default
    }
  }

  datatype Result<+R, +E> = Success(value: R) | Failure(error: E)

  /** A reachable server: `address` is "ip:port", `hostname` is the IP or "localhost". */
  datatype Host = Host(address: string, hostname: string)

  /** One validated model on one host; `size` is the number of bytes on disk. */
  datatype ModelInfo = ModelInfo(
    host: Host,
    name: string,
    size: nat,
    parameterSize: string,
    quantization: string,
    family: string,
    capabilities: seq<string>)

  /** Times are milliseconds on the abstract clock; throughput is an idealised real. */
  datatype BenchmarkResult = BenchmarkResult(
    model: ModelInfo,
    response: string,
    totalTokens: nat,
    tokensPerSecond: real,
    timeToFirstToken: int,
    totalTime: int,
    evalCount: nat,
    promptEvalCount: nat)

  /** The five memory tiers, in display order. */
  datatype Tier = Tiny | Small | Medium | Large | XL

  /** The position of a tier in display order, smallest models first. */
  function TierRank(t: Tier): nat {
    match t
    case Tiny => 0
    case Small => 1
    case Medium => 2
    case Large => 3
    case XL => 4
  }

  datatype ScoredResult = ScoredResult(
    result: BenchmarkResult,
    speedScore: real,
    qualityScore: real,
    compositeScore: real,
    tier: Tier)

  /** The configuration record, built once and passed to each stage (timeouts only shape the oracles). */
  datatype Config = Config(
    ollamaPort: int,
    localhostRetries: int,
    subnetBatchSize: int,
    speedWeight: real,
    qualityWeight: real)

  /** The values used when no environment override is given. */
  const DefaultConfig := Config(11434, 3, 50, 0.6, 0.4)
}
