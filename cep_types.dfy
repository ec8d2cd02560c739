/**
 * The value shapes the CEP (Brazilian postal code) validator works with:
 * the record the lookup service returns, the per-token outcome, and the
 * outcome of one request to the lookup service.
 */
module CepTypes {

  datatype Option<+T> = None | Some(value: T)

  /** The record the lookup service returns for one code (`CepData`).
      Only `erro` is inspected by the validator; the address fields are
      carried along untouched. */
  datatype CepData = CepData(
    cep: string,
    logradouro: Option<string>,
    complemento: Option<string>,
    bairro: Option<string>,
    localidade: Option<string>,
    uf: Option<string>,
    ibge: Option<string>,
    gia: Option<string>,
    ddd: Option<string>,
    siafi: Option<string>,
    erro: Option<bool>)
  {
    /** `if (data.erro)`: an absent or false flag is falsy, true is truthy. */
    predicate NotFound() {
      erro == Some(true)
    }
  }

  /** The outcome for one token (`CepResult`): the token as the user typed
      it (after trimming), whether it was found, and the service's record
      when it was. */
  datatype CepResult = CepResult(originalInput: string, valid: bool, data: Option<CepData>)

  /** What one request to the lookup service can come back with:
      the request itself rejects (network error), or a response arrives with
      an HTTP status and a body that either decodes as a record or does not
      (`response.json()` rejects). */
  datatype LookupResponse =
    | NetworkFailure
    | HttpResponse(status: int, body: Option<CepData>)
}
