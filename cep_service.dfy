/** `fetchAddressByCep`: clean a Brazilian postal code (CEP), refuse it unless
    it has 8 digits, then ask ViaCEP. The HTTP exchange is not executed here:
    its outcome is a parameter, and the function reports which URL (if any)
    it would have requested. */
module CepService {
  import opened Text
  import opened Notices

  /** The JSON body ViaCEP answers with. */
  datatype ViaCepResponse = ViaCepResponse(
    cep: string,
    logradouro: string,
    complemento: string,
    bairro: string,
    localidade: string,
    uf: string,
    erro: bool)

  /** What the network does with the request: it fails outright, or it
      answers with a status (`ok` is a 2xx status) and a body that parses as a
      ViaCEP response (Some) or does not (None). */
  datatype FetchOutcome =
    | NetworkError
    | HttpReply(ok: bool, body: Option<ViaCepResponse>)

  /** The lookup as the caller sees it: the URL that was fetched (None when no
      request was made) and the address, or null. */
  datatype CepLookup = CepLookup(requested: Option<string>, address: Option<ViaCepResponse>)

  function ViaCepUrl(cleanCep: string): string {
    "https://viacep.com.br/ws/" + cleanCep + "/json/"
  }

  /** `fetchAddressByCep(cep)`, where `reply` is what the fetch would yield.
      Every failure (wrong length, network error, non-ok status, unparsable
      body, the `erro` flag) ends in the catch block and returns null. */
  function FetchAddressByCep(cep: string, reply: FetchOutcome): (r: CepLookup)
    ensures |StripNonDigits(cep)| != 8 ==> r.requested == None && r.address == None
    ensures |StripNonDigits(cep)| == 8 ==> r.requested == Some(ViaCepUrl(StripNonDigits(cep)))
    ensures r.address.Some? <==>
              |StripNonDigits(cep)| == 8 && reply.HttpReply? && reply.ok
              && reply.body.Some? && !reply.body.value.erro
    ensures r.address.Some? ==> reply.HttpReply? && r.address == reply.body
  {
    var cleanCep := StripNonDigits(cep);
    if |cleanCep| != 8 then CepLookup(None, None)
    else
      var requested := Some(ViaCepUrl(cleanCep));
      match reply
      case NetworkError => CepLookup(requested, None)
      case HttpReply(ok, body) =>
        if !ok then CepLookup(requested, None)
        else if body.None? then CepLookup(requested, None)
        else if body.value.erro then CepLookup(requested, None)
        else CepLookup(requested, body)
  }

  /** The request depends on the input only through its digits: two inputs
      with the same digits give the same lookup, and a requested URL always
      carries exactly 8 digits between the fixed prefix and suffix. */
  lemma CepLookupUsesOnlyDigits(cep1: string, cep2: string, reply: FetchOutcome)
    requires StripNonDigits(cep1) == StripNonDigits(cep2)
    ensures FetchAddressByCep(cep1, reply) == FetchAddressByCep(cep2, reply)
    ensures var url := FetchAddressByCep(cep1, reply).requested;
            url.Some? ==> exists d :: |d| == 8 && AllDigits(d) && url.value == ViaCepUrl(d)
  {
    var url := FetchAddressByCep(cep1, reply).requested;
    if url.Some? {
      var d := StripNonDigits(cep1);
      assert |d| == 8 && AllDigits(d) && url.value == ViaCepUrl(d);
    }
  }

  /** Formatting marks in the input make no difference: "01310-100" and
      "01310100" are looked up alike. */
  lemma CepPunctuationIgnored(a: string, b: string, reply: FetchOutcome)
    requires AllDigits(a) && AllDigits(b) && |a| + |b| == 8
    ensures FetchAddressByCep(a + "-" + b, reply) == FetchAddressByCep(a + b, reply)
    ensures FetchAddressByCep(a + b, reply).requested == Some(ViaCepUrl(a + b))
  {
    StripNonDigitsOfDigits(a);
    StripNonDigitsOfDigits(b);
    StripNonDigitsOfDigits(a + b);
    assert a + "-" + b == a + ['-'] + b;
    StripNonDigitsSeparator(a, '-', b);
  }
}
