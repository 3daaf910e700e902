/**
 * What one poll of the miner's HTTP status endpoint yields. The GET itself
 * is not modelled: a transport error, a non-200 status, an empty body or an
 * empty JSON object all arrive here as `Unreachable`.
 */
module Device {

  datatype Snapshot =
    | Unreachable
      /** `bestDiff` is the raw magnitude text ("568M"; "N/A" when the field is
          missing), `hashRate` is in MH/s (0 when missing) and `usingFallback`
          is `isUsingFallbackStratum` (false when missing). */
    | Present(bestDiff: string, hashRate: real, usingFallback: bool)
}
