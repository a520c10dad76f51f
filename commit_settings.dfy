/** The payload-commit service's own settings object: the decoded JSON configuration
    and the defaults filled in after decoding. Only the fields `SetDefaults` reads or
    writes, and a few neighbours to show they stay as they are, are modelled. */
module PayloadCommitSettings {
  import opened Wrappers
  import opened SettingsDefaults

  /** A token-bucket rate limit. */
  datatype RateLimiter = RateLimiter(burst: int, requestsPerSec: int)

  /** The `web3_storage` section, a struct held by value. */
  datatype Web3Storage = Web3Storage(
    url: string,
    apiToken: string,
    timeoutSecs: int,
    maxIdleConns: int,
    idleConnTimeout: int,
    rateLimiter: Option<RateLimiter>,
    uploadURLSuffix: string)

  class SettingsObj {
    var host: string
    var port: int
    var ipfsURL: string
    /** The `*int` retry count: None stands for a nil pointer. */
    var retryCount: Option<int>
    var retryIntervalSecs: int
    var httpClientTimeoutSecs: int
    var payloadCommitInterval: int
    var payloadCommitConcurrency: int
    var containerHeight: int
    var web3Storage: Web3Storage

    /** Every setting `SetDefaults` fills in has a usable value. */
    predicate Configured()
      reads this
    {
      && retryCount.Some? && retryCount.value != 0
      && retryIntervalSecs != 0
      && httpClientTimeoutSecs != 0
      && payloadCommitConcurrency != 0
      && web3Storage.uploadURLSuffix != ""
    }

    /** `SetDefaults`: a nil retry count becomes 15 and 0 becomes `MaxInt`; zero retry
        interval, HTTP timeout and commit concurrency become 5, 10 and 20; an empty
        upload suffix becomes "/upload". Nothing outside these fields changes, a
        configured object is left as it is, and afterwards the object is configured. */
    method SetDefaults()
      modifies this`retryCount, this`retryIntervalSecs, this`httpClientTimeoutSecs,
               this`payloadCommitConcurrency, this`web3Storage
      ensures retryCount == RetryDefault(old(retryCount), 15)
      ensures retryIntervalSecs == IntDefault(old(retryIntervalSecs), 5)
      ensures httpClientTimeoutSecs == IntDefault(old(httpClientTimeoutSecs), 10)
      ensures payloadCommitConcurrency == IntDefault(old(payloadCommitConcurrency), 20)
      ensures web3Storage == old(web3Storage).(uploadURLSuffix := StringDefault(old(web3Storage.uploadURLSuffix), "/upload"))
      ensures Configured()
      ensures old(Configured()) ==>
                && retryCount == old(retryCount) && retryIntervalSecs == old(retryIntervalSecs)
                && httpClientTimeoutSecs == old(httpClientTimeoutSecs)
                && payloadCommitConcurrency == old(payloadCommitConcurrency)
                && web3Storage == old(web3Storage)
    {
      if retryCount.None? {
        retryCount := Some(15);
      } else if retryCount.value == 0 {
        retryCount := Some(MaxInt);
      }
      if retryIntervalSecs == 0 {
        retryIntervalSecs := 5;
      }
      if httpClientTimeoutSecs == 0 {
        httpClientTimeoutSecs := 10;
      }
      if payloadCommitConcurrency == 0 {
        payloadCommitConcurrency := 20;
      }
      if web3Storage.uploadURLSuffix == "" {
        web3Storage := web3Storage.(uploadURLSuffix := "/upload");
      }
    }
  }
}
