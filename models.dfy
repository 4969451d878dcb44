/** The customer record the ingestion builds (the `Customer` model class of the
    application, whose setters the ingestion calls once each). */
module Models {

  /** One customer; every field holds the raw text of its CSV column. */
  datatype Customer = Customer(
    customerId: string,
    firstName: string,
    lastName: string,
    company: string,
    city: string,
    country: string)
}
