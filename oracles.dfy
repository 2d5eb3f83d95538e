/** The code the converter calls but that is not part of this model, as functions the caller
    supplies: the SDLXLIFF converter, the XML parser and serialiser, path cleaning and the XLIFF
    joiner. */
module Oracles {
  import opened Base
  import opened Xml

  /** The parameter table handed to the SDLXLIFF converter (lines 132-145). The three file
      names are the extracted entry and the two files beside it; every other value is copied
      straight from the caller's parameters, so `srcLang` and `tgtLang` are the codes as the
      caller wrote them, before any case-insensitive resolution. `None` is a missing or
      `null` value. */
  datatype ConversionRequest = ConversionRequest(
    source: TempPath, xliff: TempPath, skeleton: TempPath,
    catalog: JString, srcLang: JString, tgtLang: JString, srcEncoding: JString,
    paragraph: JString, srxFile: JString, format: JString)

  /** What the SDLXLIFF converter produces: on the success code, the XLIFF and skeleton
      files it wrote; on any other code, nothing the caller reads. */
  datatype Conversion = Converted(xliff: Bytes, skeleton: Bytes) | ConversionFailed

  datatype Env = Env(
    /** `Sdl2Xliff.run`, given the request and the extracted document. */
    convert: (ConversionRequest, Bytes) -> Conversion,
    /** `SAXBuilder.build` on a file's bytes: the root element, or the parse or I/O error. */
    parse: Bytes -> Result<Element>,
    /** `Indenter.indent` followed by `XMLOutputter.output`. */
    serialize: Element -> Bytes,
    /** `Utils.cleanString`. */
    clean: string -> string,
    /** `Join.join` of the XLIFF files, in list order, into the file named by the `xliff`
        parameter: the joined document, or the I/O or parse error. */
    join: (seq<Bytes>, JString) -> Result<Bytes>,
    /** What `Element.getAttributeValue` returns for an attribute the element lacks: `null`,
        or the library's default value. */
    absentAttribute: JString)
}
