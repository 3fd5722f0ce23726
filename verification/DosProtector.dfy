/** The DoS protector object: its critical sections, and a whole call when no other call interleaves. */
module DosProtection {
  import opened Sums
  import opened DosModel
  import opened Separators

  function FingerprintID(ip: string, userAgent: string, protocol: string): string {
    ip + ":" + userAgent + ":" + protocol
  }

  /** Two clients share a fingerprint if and only if they are the same, or colons shift a part between address, user
      agent and protocol; never as long as the first and the last hold no colon. */
  lemma FingerprintsMeetIff(ip: string, agent: string, protocol: string, ip': string, agent': string,
      protocol': string)
    ensures var rest, rest' := Joined(agent, ':', protocol), Joined(agent', ':', protocol');
            FingerprintID(ip, agent, protocol) == FingerprintID(ip', agent', protocol')
            <==> (ip == ip' && rest == rest')
                 || Shifted(':', ip, rest, ip', rest') || Shifted(':', ip', rest', ip, rest)
    ensures ':' !in ip && ':' !in ip' && ':' !in protocol && ':' !in protocol' ==>
              (FingerprintID(ip, agent, protocol) == FingerprintID(ip', agent', protocol')
               <==> ip == ip' && agent == agent' && protocol == protocol')
  {
    var rest, rest' := Joined(agent, ':', protocol), Joined(agent', ':', protocol');
    assert FingerprintID(ip, agent, protocol) == Joined(ip, ':', rest);
    assert FingerprintID(ip', agent', protocol') == Joined(ip', ':', rest');
    JoinedMeetIff(':', ip, rest, ip', rest');
    if ':' !in ip && ':' !in ip' { FirstPart(':', ip, rest, ip', rest'); }
    if ':' !in protocol && ':' !in protocol' { LastPart(':', agent, protocol, agent', protocol'); }
  }

  class DOSProtector {
    const cfg: Config
    var fingerprints: map<string, Fingerprint>
    var blockedIPs: map<string, int>
    var enabled: bool

    ghost function View(): Tables
      reads this
    {
      Tables(fingerprints, blockedIPs)
    }

    constructor (threshold: int, windowSize: int, blockDuration: int)
      ensures View() == Tables(map[], map[]) && enabled && cfg == Config(threshold, windowSize, blockDuration)
    {
      cfg := Config(threshold, windowSize, blockDuration);
      fingerprints, blockedIPs, enabled := map[], map[], true;
    }

    method IsBlocked(ip: string) returns (blockedTime: Option<int>)
      ensures blockedTime == if ip in blockedIPs then Some(blockedIPs[ip]) else None
    {
      blockedTime := if ip in blockedIPs then Some(blockedIPs[ip]) else None;
    }

    /** The main critical section. */
    method CountRequest(id: string, ip: string, now: int, at: int) returns (admitted: bool)
      modifies this`fingerprints, this`blockedIPs
      ensures (View(), admitted) == DosModel.CountRequest(cfg, old(View()), id, ip, now, at)
    {
      if id !in fingerprints {
        fingerprints := fingerprints[id := Fingerprint(now, 1)];
        return true;
      }
      var f := fingerprints[id];
      if now - f.timestamp < cfg.window {
        f := f.(count := f.count + 1);
        fingerprints := fingerprints[id := f];
        if f.count > cfg.threshold {
          blockedIPs := blockedIPs[ip := at];
          return false;
        }
      } else {
        fingerprints := fingerprints[id := Fingerprint(now, 1)];
      }
      admitted := true;
    }

    /** A whole call with no other in between, with the clock as it reads it: `compared` against a block that was
        seen, `now` to count, `at` to stamp a new block. A live block refuses it; otherwise it is counted, after an
        expired block is deleted. */
    method CheckFingerprint(ip: string, userAgent: string, protocol: string, compared: int, now: int, at: int)
      returns (admitted: bool)
      requires compared <= now <= at
      modifies this`fingerprints, this`blockedIPs
      ensures !enabled ==> admitted && View() == old(View())
      ensures enabled && Refuses(old(View()), ip, compared) ==> !admitted && View() == old(View())
      ensures enabled && !Refuses(old(View()), ip, compared) ==>
                (View(), admitted)
                == DosModel.CountRequest(cfg, Unblock(old(View()), ip), FingerprintID(ip, userAgent, protocol), ip,
                    now, at)
    {
      if !enabled { return true; }
      var blockedTime := IsBlocked(ip);
      if blockedTime.Some? {
        if compared - blockedTime.value > cfg.blockDuration {
          blockedIPs := blockedIPs - {ip};
        } else {
          return false;
        }
      }
      assert View() == Unblock(old(View()), ip);
      admitted := CountRequest(FingerprintID(ip, userAgent, protocol), ip, now, at);
    }

    predicate Refuses(d: Tables, ip: string, compared: int) {
      var read := ReadPhase(d, ip);
      read.Comparing? && ComparePhase(cfg, read.seen, compared) == Done(false)
    }

    /** One cleanup pass: rebuilds both maps from the entries that have not expired. */
    method CleanupExpired(now: int)
      modifies this`fingerprints, this`blockedIPs
      ensures View() == Clean(cfg, old(View()), now)
    {
      var newFingerprints, ids := map[], fingerprints.Keys;
      while ids != {}
        invariant ids <= fingerprints.Keys && fingerprints == old(fingerprints) && blockedIPs == old(blockedIPs)
        invariant newFingerprints
                  == map id | id in fingerprints && id !in ids
                      && now - fingerprints[id].timestamp <= cfg.window :: fingerprints[id]
        decreases ids
      {
        var id :| id in ids;
        ids := ids - {id};
        if now - fingerprints[id].timestamp <= cfg.window {
          newFingerprints := newFingerprints[id := fingerprints[id]];
        }
      }
      var newBlockedIPs, ips := map[], blockedIPs.Keys;
      while ips != {}
        invariant ips <= blockedIPs.Keys && fingerprints == old(fingerprints) && blockedIPs == old(blockedIPs)
        invariant newBlockedIPs
                  == map ip | ip in blockedIPs && ip !in ips
                      && now - blockedIPs[ip] <= cfg.blockDuration :: blockedIPs[ip]
        decreases ips
      {
        var ip :| ip in ips;
        ips := ips - {ip};
        if now - blockedIPs[ip] <= cfg.blockDuration {
          newBlockedIPs := newBlockedIPs[ip := blockedIPs[ip]];
        }
      }
      fingerprints, blockedIPs := newFingerprints, newBlockedIPs;
    }
  }
}
