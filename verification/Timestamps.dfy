/** The two wire times the components exchange: NTP 32.32 and PTP seconds with nanoseconds. */
module Timestamps {
  import opened Bytes

  const NS_PER_S: int := 1_000_000_000

  datatype Timestamp = Timestamp(seconds: u32, fraction: u32)

  datatype PtpTime = PtpTime(seconds: u32, nanoseconds: u32)
}
