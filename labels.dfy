/** The field-label registry the renderers import. Its contents (which keys are renderable, their
    labels, how each value is formatted, the label of each entry type) are not part of this model,
    so every renderer takes the registry as a parameter and every property holds for any registry. */
module Labels {
  import opened DiffModel

  /** `isDiffSubjectKey`, `fieldLabels[key]`, `formatValue(key, value)` and `typeLabels[type]`. */
  datatype Registry = Registry(
    isDiffSubjectKey: string -> bool,
    fieldLabel: string -> string,
    formatValue: (string, Json) -> string,
    typeLabel: DiffType -> string)
}
