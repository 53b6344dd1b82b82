/**
 `SignedUrlSigner` of core/services/file_server.py. The keyed digest is the parameter
 `mac`, the clock an argument. `Err` stands for the exception Python raises on text that
 is not ASCII.
 */
module SignedUrls {
  import opened Prelude
  import opened Text
  import opened Numerals

  datatype Signature = Signature(exp: int, sig: string)

  predicate Ascii(s: string) {
    forall i | 0 <= i < |s| :: s[i] < 128 as char
  }

  function Message(resource: string, identifier: string, exp: int): string {
    resource + ":" + identifier + ":" + IntText(exp)
  }

  /** `_compute` */
  function Compute(mac: string -> string, resource: string, identifier: string, exp: int): Result<string> {
    var msg := Message(resource, identifier, exp);
    if Ascii(msg) then Ok(mac(msg)) else Err("UnicodeEncodeError")
  }

  function Sign(mac: string -> string, resource: string, identifier: string, ttl: int, now: int): Result<Signature> {
    match Compute(mac, resource, identifier, now + ttl)
    case Ok(sig) => Ok(Signature(now + ttl, sig))
    case Err(e) => Err(e)
  }

  /** `exp` arrives as query text, `sig` may be missing. */
  function Verify(mac: string -> string, resource: string, identifier: string,
                  exp: string, sig: Option<string>, now: int): Result<bool>
  {
    match PyInt(exp)
    case None => Ok(false)
    case Some(e) =>
      if e < now then Ok(false)
      else
        match Compute(mac, resource, identifier, e)
        case Err(m) => Err(m)
        case Ok(expected) =>
          var given := if sig.Some? then sig.value else "";
          if Ascii(given) then Ok(expected == given) else Err("TypeError")
  }

  lemma IntTextHasNoColon(z: int)
    ensures ':' !in IntText(z)
  {
  }

  lemma IntTextInjective(y: int, z: int)
    requires IntText(y) == IntText(z)
    ensures y == z
  {
    PyIntOfText(y);
    PyIntOfText(z);
  }

  /**
   The signed text determines what was signed, colons in the identifier included: the first
   colon ends the resource and the last one starts the expiry.
   */
  lemma MessageDeterminesParts(r1: string, i1: string, e1: int, r2: string, i2: string, e2: int)
    requires ':' !in r1 && ':' !in r2
    requires Message(r1, i1, e1) == Message(r2, i2, e2)
    ensures r1 == r2 && i1 == i2 && e1 == e2
  {
    IntTextHasNoColon(e1);
    IntTextHasNoColon(e2);
    SplitLastAt(r1 + ":" + i1, ':', IntText(e1));
    SplitLastAt(r2 + ":" + i2, ':', IntText(e2));
    SplitOnceAt(r1, ':', i1);
    SplitOnceAt(r2, ':', i2);
    IntTextInjective(e1, e2);
  }

  /** The digest tells these two texts apart, and is written in hexadecimal. */
  predicate Separates(mac: string -> string, a: string, b: string) {
    Ascii(mac(a)) && (mac(a) == mac(b) ==> a == b)
  }

  /**
   A signature made for one resource, identifier and expiry verifies for another exactly
   when all three are the same and the expiry has not passed.
   */
  lemma VerifiesIff(mac: string -> string, r1: string, i1: string, ttl: int, made: int,
                    r2: string, i2: string, exp: string, now: int)
    requires ':' !in r1 && ':' !in r2
    requires Sign(mac, r1, i1, ttl, made).Ok?
    requires PyInt(exp).Some? ==> Separates(mac, Message(r1, i1, made + ttl), Message(r2, i2, PyInt(exp).value))
    ensures var s := Sign(mac, r1, i1, ttl, made).value;
      Verify(mac, r2, i2, exp, Some(s.sig), now) == Ok(true)
      <==> r2 == r1 && i2 == i1 && PyInt(exp) == Some(made + ttl) && now <= made + ttl
  {
    if PyInt(exp).Some? {
      var e := PyInt(exp).value;
      if Message(r1, i1, made + ttl) == Message(r2, i2, e) {
        MessageDeterminesParts(r1, i1, made + ttl, r2, i2, e);
      }
    }
  }

  /** Nothing but the digest of the very text verifies; a missing signature reads as the empty one. */
  lemma OnlyTheDigestVerifies(mac: string -> string, resource: string, identifier: string, exp: string,
                              sig: Option<string>, now: int)
    ensures Verify(mac, resource, identifier, exp, sig, now) == Ok(true) <==>
              && PyInt(exp).Some? && now <= PyInt(exp).value
              && Ascii(Message(resource, identifier, PyInt(exp).value))
              && mac(Message(resource, identifier, PyInt(exp).value)) == (if sig == None then "" else sig.value)
              && Ascii(mac(Message(resource, identifier, PyInt(exp).value)))
  {
  }

  /** In particular the link that was handed out works until its expiry, and not after. */
  lemma OwnLinkVerifies(mac: string -> string, resource: string, identifier: string, ttl: int, made: int, now: int)
    requires Ascii(Message(resource, identifier, made + ttl)) && Ascii(mac(Message(resource, identifier, made + ttl)))
    ensures Sign(mac, resource, identifier, ttl, made).Ok?
    ensures var s := Sign(mac, resource, identifier, ttl, made).value;
      Verify(mac, resource, identifier, IntText(s.exp), Some(s.sig), now) == Ok(now <= made + ttl)
  {
    PyIntOfText(made + ttl);
  }
}
