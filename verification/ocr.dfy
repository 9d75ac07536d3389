/**
 * The text-recognition request that the viewer hands to its background
 * runtime. Recognition itself is an external engine; only the fixed request
 * configuration is part of this model.
 */
module Ocr {

  /** Languages the recognition engine can be asked for; the viewer only ever asks for English. */
  datatype Language = English

  /** Engine options the viewer fixes for every request. */
  datatype OcrOptions = OcrOptions(languages: seq<Language>, timeoutSeconds: nat)

  /** The options of every request: English only, a 30 second timeout. */
  const RequestOptions: OcrOptions := OcrOptions([English], 30)

  /** One recognition request: the file to read and the options it runs with. */
  datatype OcrRequest = OcrRequest(path: string, options: OcrOptions)

  /** Every request built with the fixed options asks for English alone and gives up after 30 seconds. */
  lemma RequestIsEnglishWithTimeout(path: string)
    ensures OcrRequest(path, RequestOptions).options.languages == [English]
    ensures forall l :: l in OcrRequest(path, RequestOptions).options.languages ==> l == English
    ensures OcrRequest(path, RequestOptions).options.timeoutSeconds == 30
  {
  }
}
